/**
 Racing clients commit actions on shared agreements. Each reads, computes the next
 snapshot, checks its idempotency key and writes; what is proved holds in every
 state any interleaving of them reaches.
 */
module AgreementCommit {
  import opened Wrappers
  import opened AgreementStore

  /** Which snapshots may be created, and which may follow another under an action. */
  datatype Rules = Rules(born: Snapshot -> bool, follows: (Snapshot, string, Snapshot) -> bool)

  /** What a transition never does, whatever the definition: jump a version, or move to another agreement or source. */
  ghost predicate Sound(rules: Rules) {
    && (forall s :: rules.born(s) ==> s.version == 1)
    && (forall v, a, w :: rules.follows(v, a, w) ==>
      w.number == v.number && w.version == v.version + 1 && w.source == v.source)
  }

  /** How a request ended; a commit says which version it wrote and whether it asked for payment. */
  datatype Outcome = Committed(version: nat, paid: bool) | AlreadyCompleted | KeyReused | Stale | NotFound

  /** How far a request has got. */
  datatype Client =
    | Loaded(request: Request, current: Snapshot)
    | Checked(request: Request, current: Snapshot, next: Snapshot, pay: bool)
    | Lost(request: Request)
    | Done(request: Request, outcome: Outcome)

  datatype State = State(store: Store, clients: map<nat, Client>)

  datatype Step =
    | Create(s: Snapshot)
    | Load(c: nat, request: Request)
    | Look(c: nat)
    | Check(c: nat, next: Snapshot, pay: bool)
    | Write(c: nat)
    | Resolve(c: nat)

  function With(s: State, c: nat, client: Client): State {
    s.(clients := s.clients[c := client])
  }

  /** What a request is told when its key is found. */
  function Answer(found: Lookup, other: Client, r: Request): Client {
    match found
    case Nothing => other
    case SameAction => Done(r, AlreadyCompleted)
    case OtherAction => Done(r, KeyReused)
  }

  ghost function Written(s: State, c: nat, client: Client): State
    requires client.Checked?
  {
    match Commit(s.store, client.request, client.current, client.next, client.pay)
    case Ok(store) => State(store, s.clients[c := Done(client.request, Committed(client.next.version, client.pay))])
    case Err(_) => With(s, c, Lost(client.request))
  }

  /** One step; a step that is not due changes nothing. */
  ghost function Apply(rules: Rules, s: State, step: Step): State {
    match step
    case Create(snapshot) =>
      if rules.born(snapshot) && Persist(s.store, snapshot).Ok? then s.(store := Persist(s.store, snapshot).value)
        else s
    case Load(c, r) =>
      if c in s.clients then s
      else if r.number in s.store.current then With(s, c, Loaded(r, s.store.current[r.number]))
      else With(s, c, Done(r, NotFound))
    case Look(c) =>
      if c in s.clients && s.clients[c].Loaded?
      then With(s, c, Answer(FindCompleted(s.store, s.clients[c].request), s.clients[c], s.clients[c].request)) else s
    case Check(c, next, pay) =>
      if c in s.clients && s.clients[c].Loaded? &&
        rules.follows(s.clients[c].current, s.clients[c].request.action, next)
      then
        var r := s.clients[c].request;
        With(s, c, Answer(FindCompleted(s.store, r), Checked(r, s.clients[c].current, next, pay), r))
      else s
    case Write(c) =>
      if c in s.clients && s.clients[c].Checked? then Written(s, c, s.clients[c]) else s
    case Resolve(c) =>
      if c in s.clients && s.clients[c].Lost?
      then
        var r := s.clients[c].request;
        With(s, c, Answer(FindCompleted(s.store, r),
          Done(r, if r.number in s.store.current then Stale else NotFound), r))
      else s
  }

  /*** The invariant: the store ***/

  /** A number's versions are exactly 1 to the current one's. */
  predicate Counted(store: Store) {
    && (forall key :: key in store.versions ==>
          key.number in store.current && 1 <= key.version <= store.current[key.number].version)
    && (forall n, k: nat :: n in store.current && 1 <= k <= store.current[n].version ==> Key(n, k) in store.versions)
  }

  /** The current document is the last version's snapshot. */
  predicate CurrentOk(store: Store, n: Number)
    requires n in store.current
  {
    && store.current[n].number == n && store.current[n].version >= 1
    && Key(n, store.current[n].version) in store.versions
    && store.versions[Key(n, store.current[n].version)].snapshot == store.current[n]
  }

  predicate CurrentsOk(store: Store) {
    forall n {:trigger CurrentOk(store, n)} :: n in store.current ==> CurrentOk(store, n)
  }

  /** The first version was created; every later one follows the one before it, under the action it records. */
  ghost predicate VersionOk(rules: Rules, store: Store, key: Key)
    requires key in store.versions
  {
    var v := store.versions[key];
    && v.snapshot.number == key.number && v.snapshot.version == key.version
    && if key.version <= 1 then v.execution.None? && rules.born(v.snapshot)
       else
         && v.execution.Some?
         && Key(key.number, key.version - 1) in store.versions
         && rules.follows(store.versions[Key(key.number, key.version - 1)].snapshot, v.execution.value.name, v.snapshot)
  }

  ghost predicate VersionsOk(rules: Rules, store: Store) {
    forall key {:trigger VersionOk(rules, store, key)} :: key in store.versions ==> VersionOk(rules, store, key)
  }

  /** A key is recorded with one version of its agreement at most. */
  ghost predicate OneVersionPerKey(store: Store) {
    forall n, key, j, k :: IsRecordedAt(store, n, key, j) && IsRecordedAt(store, n, key, k) ==> j == k
  }

  /** A source has one agreement at most. */
  ghost predicate OnePerSource(store: Store) {
    forall n, m :: ShareSource(store, n, m) ==> n == m
  }

  predicate ShareSource(store: Store, n: Number, m: Number) {
    n in store.current && m in store.current && store.current[n].source == store.current[m].source
  }

  /** The version is one whose state differs from that before it. */
  predicate StateChanged(store: Store, key: Key) {
    && key in store.versions
    && (key.version > 1 ==>
          && Key(key.number, key.version - 1) in store.versions
          && store.versions[Key(key.number, key.version - 1)].snapshot.state != store.versions[key].snapshot.state)
  }

  function Once(b: bool): nat {
    if b then 1 else 0
  }

  /** How often an event is saved. */
  predicate EventOk(store: Store, e: Event) {
    match e
    case Lifecycle(key, state) => store.events[e] ==
      Once(StateChanged(store, key) && store.versions[key].snapshot.state == state)
    case StatusChanged(key, state) => store.events[e] ==
      Once(StateChanged(store, key) && store.versions[key].snapshot.state == state)
    case Created(key) => store.events[e] == Once(key in store.versions && key.version <= 1)
    case PaymentRequested(key) => store.events[e] <= Once(key in store.versions)
  }

  ghost predicate StoreOk(rules: Rules, store: Store) {
    && Counted(store)
    && CurrentsOk(store)
    && VersionsOk(rules, store)
    && OneVersionPerKey(store)
    && OnePerSource(store)
    && (forall e: Event :: EventOk(store, e))
  }

  /*** The invariant: the clients ***/

  predicate IsVersion(store: Store, number: Number, s: Snapshot) {
    && number in store.current && s.number == number && s.version <= store.current[number].version
    && Key(number, s.version) in store.versions
    && store.versions[Key(number, s.version)].snapshot == s
  }

  ghost predicate HasExecuted(store: Store, r: Request, k: nat) {
    IsRecordedAt(store, r.number, r.idempotencyKey, k) &&
      store.versions[Key(r.number, k)].execution.value.name == r.action
  }

  /**
   What a request has read is a stored version; while that is still the current one,
   the key it found unused still is; and what it was told is true.
   */
  ghost predicate ClientOk(rules: Rules, store: Store, client: Client) {
    match client
    case Loaded(r, current) => IsVersion(store, r.number, current)
    case Checked(r, current, next, _) =>
      && IsVersion(store, r.number, current)
      && rules.follows(current, r.action, next)
      && (store.current[r.number].version == current.version ==> !HasKey(store, r.number, r.idempotencyKey))
    case Lost(r) => r.number in store.current
    case Done(r, outcome) =>
      match outcome
      case Committed(k, paid) => HasExecuted(store, r, k) &&
        store.events[PaymentRequested(Key(r.number, k))] == Once(paid)
      case AlreadyCompleted => exists k :: HasExecuted(store, r, k)
      case KeyReused => exists k :: IsRecordedAt(store, r.number, r.idempotencyKey, k) && !HasExecuted(store, r, k)
      case Stale => r.number in store.current
      case NotFound => true
  }

  /** No two requests wrote the same version. */
  predicate OneWriter(clients: map<nat, Client>) {
    forall c, d :: c in clients && d in clients && WroteTheSame(clients[c], clients[d]) ==> c == d
  }

  predicate WroteTheSame(a: Client, b: Client) {
    a.Done? && b.Done? && a.outcome.Committed? && b.outcome.Committed? && a.outcome.version == b.outcome.version &&
      a.request.number == b.request.number
  }

  ghost predicate Inv(rules: Rules, s: State) {
    && StoreOk(rules, s.store)
    && (forall c :: c in s.clients ==> ClientOk(rules, s.store, s.clients[c]))
    && OneWriter(s.clients)
  }

  ghost predicate Fresh(s: State) {
    s == State(Store(map[], map[], multiset{}), map[])
  }

  /*** What a write leaves alone ***/

  /** The agreement was there, and is still at the version it was at. */
  predicate Stands(before: Store, after: Store, n: Number) {
    && n in before.current && n in after.current
    && after.current[n].version == before.current[n].version
  }

  /** Nothing stored is lost, and an agreement that stays at its version gets no other. */
  predicate Grows(before: Store, after: Store) {
    && (forall key :: key in before.versions ==> key in after.versions && after.versions[key] == before.versions[key])
    && (forall n :: n in before.current ==> n in after.current && before.current[n].version <= after.current[n].version)
    && (forall key :: key in after.versions && Stands(before, after, key.number) ==> key in before.versions)
    && (forall key :: key in before.versions ==>
      after.events[PaymentRequested(key)] == before.events[PaymentRequested(key)])
  }

  lemma GrowingKeepsRecords(before: Store, after: Store, n: Number, idempotencyKey: string)
    requires Grows(before, after) && n in before.current && after.current[n].version == before.current[n].version
    ensures HasKey(after, n, idempotencyKey) <==> HasKey(before, n, idempotencyKey)
  {
    if HasKey(after, n, idempotencyKey) {
      var key :| key in after.versions && key.number == n && IsRecordedAt(after, n, idempotencyKey, key.version);
      assert key in before.versions;
    }
    if HasKey(before, n, idempotencyKey) {
      var key :| key in before.versions && key.number == n && IsRecordedAt(before, n, idempotencyKey, key.version);
      assert key in after.versions;
    }
  }

  lemma GrowingKeepsClient(rules: Rules, before: Store, after: Store, client: Client)
    requires Grows(before, after) && ClientOk(rules, before, client)
    ensures ClientOk(rules, after, client)
  {
    match client
    case Checked(r, current, next, _) =>
      if after.current[r.number].version == current.version {
        GrowingKeepsRecords(before, after, r.number, r.idempotencyKey);
      }
    case Done(r, outcome) =>
      match outcome {
        case AlreadyCompleted =>
          var k :| HasExecuted(before, r, k);
          assert HasExecuted(after, r, k);
        case KeyReused =>
          var k :| IsRecordedAt(before, r.number, r.idempotencyKey, k) && !HasExecuted(before, r, k);
          assert IsRecordedAt(after, r.number, r.idempotencyKey, k) && !HasExecuted(after, r, k);
        case _ =>
      }
    case _ =>
  }

  /*** A new version keeps the store right ***/

  /** One more version of an agreement: the first of a new one, or the next of one there is. */
  ghost predicate Adds(rules: Rules, before: Store, after: Store, s: Snapshot, execution: Option<Execution>) {
    var key := Key(s.number, s.version);
    && after.current == before.current[s.number := s]
    && after.versions == before.versions[key := Version(s, execution)]
    && key !in before.versions
    && (if s.version <= 1 then
          && s.number !in before.current && s.version == 1 && execution.None? && rules.born(s)
          && !SourceIsTaken(before, s.source)
        else
          && s.number in before.current && before.current[s.number].source == s.source
          && before.current[s.number].version == s.version - 1
          && execution.Some? && rules.follows(before.current[s.number], execution.value.name, s)
          && !HasKey(before, s.number, execution.value.idempotencyKey))
  }

  lemma AddingKeepsPayments(
    rules: Rules, before: Store, after: Store, s: Snapshot, execution: Option<Execution>, batch: multiset<Event>,
    key: Key)
    requires Adds(rules, before, after, s, execution) && SavedWith(before, after, s, batch) && key in before.versions
    ensures after.events[PaymentRequested(key)] == before.events[PaymentRequested(key)]
  {
  }

  lemma AddingGrows(
    rules: Rules, before: Store, after: Store, s: Snapshot, execution: Option<Execution>, batch: multiset<Event>)
    requires Counted(before) && Adds(rules, before, after, s, execution) && SavedWith(before, after, s, batch)
    ensures Grows(before, after)
  {
    forall key | key in before.versions
      ensures after.events[PaymentRequested(key)] == before.events[PaymentRequested(key)]
    {
      AddingKeepsPayments(rules, before, after, s, execution, batch, key);
    }
  }

  lemma AddingKeepsCounted(rules: Rules, before: Store, after: Store, s: Snapshot, execution: Option<Execution>)
    requires Counted(before) && Adds(rules, before, after, s, execution)
    ensures Counted(after)
  {
  }

  lemma AddingKeepsCurrents(rules: Rules, before: Store, after: Store, s: Snapshot, execution: Option<Execution>)
    requires CurrentsOk(before) && Adds(rules, before, after, s, execution)
    ensures CurrentsOk(after)
  {
    forall n | n in after.current
      ensures CurrentOk(after, n)
    {
      if n != s.number {
        assert CurrentOk(before, n);
      }
    }
  }

  lemma AddingKeepsVersions(rules: Rules, before: Store, after: Store, s: Snapshot, execution: Option<Execution>)
    requires Adds(rules, before, after, s, execution) && CurrentsOk(before) && VersionsOk(rules, before)
    ensures VersionsOk(rules, after)
  {
    forall key | key in after.versions
      ensures VersionOk(rules, after, key)
    {
      if key in before.versions {
        assert VersionOk(rules, before, key);
      } else if s.version > 1 {
        assert CurrentOk(before, s.number);
      }
    }
  }

  lemma AddingKeepsKeys(rules: Rules, before: Store, after: Store, s: Snapshot, execution: Option<Execution>)
    requires OneVersionPerKey(before) && Adds(rules, before, after, s, execution)
    ensures OneVersionPerKey(after)
  {
    forall n, idem, j, k | IsRecordedAt(after, n, idem, j) && IsRecordedAt(after, n, idem, k)
      ensures j == k
    {
      RecordedBefore(rules, before, after, s, execution, n, idem, j);
      RecordedBefore(rules, before, after, s, execution, n, idem, k);
    }
  }

  lemma AddingKeepsSources(rules: Rules, before: Store, after: Store, s: Snapshot, execution: Option<Execution>)
    requires OnePerSource(before) && Adds(rules, before, after, s, execution)
    ensures OnePerSource(after)
  {
    forall n, m | ShareSource(after, n, m)
      ensures n == m
    {
      assert n in before.current && m in before.current && before.current[n].source == before.current[m].source ==>
        ShareSource(before, n, m);
    }
  }

  /** A record is an old one, or that of the version added, whose key was not in use. */
  lemma RecordedBefore(
    rules: Rules, before: Store, after: Store, s: Snapshot, execution: Option<Execution>, n: Number, idem: string,
    k: nat)
    requires Adds(rules, before, after, s, execution) && IsRecordedAt(after, n, idem, k)
    ensures IsRecordedAt(before, n, idem, k) || (n == s.number && k == s.version && !HasKey(before, n, idem))
    ensures IsRecordedAt(before, n, idem, k) ==> HasKey(before, n, idem)
  {
    var key := Key(n, k);
    assert key == Key(s.number, s.version) || key in before.versions;
    assert IsRecordedAt(before, n, idem, k) ==>
      key in before.versions && key.number == n && IsRecordedAt(before, n, idem, key.version);
  }

  /** What is saved beside a new version. */
  predicate SavedWith(before: Store, after: Store, s: Snapshot, batch: multiset<Event>) {
    && after.events == before.events + batch
    && if s.version <= 1 then batch == CreationEvents(s)
       else s.number in before.current && exists pay :: batch == ActionEvents(before.current[s.number], s, pay)
  }

  /** Versions stored before are announced as before. */
  lemma OtherStateChanges(
    rules: Rules, before: Store, after: Store, s: Snapshot, execution: Option<Execution>, key: Key)
    requires Counted(before) && Adds(rules, before, after, s, execution) && key != Key(s.number, s.version)
    ensures StateChanged(after, key) <==> StateChanged(before, key)
    ensures key in after.versions <==> key in before.versions
    ensures key in after.versions ==> after.versions[key] == before.versions[key]
  {
  }

  lemma NewStateChange(rules: Rules, before: Store, after: Store, s: Snapshot, execution: Option<Execution>)
    requires CurrentsOk(before) && Adds(rules, before, after, s, execution)
    ensures StateChanged(after, Key(s.number, s.version)) <==>
      (s.version > 1 ==> before.current[s.number].state != s.state)
  {
    if s.version > 1 {
      assert CurrentOk(before, s.number);
    }
  }

  lemma AddingKeepsEvent(
    rules: Rules, before: Store, after: Store, s: Snapshot, execution: Option<Execution>, batch: multiset<Event>,
    e: Event)
    requires Counted(before) && CurrentsOk(before) && Adds(rules, before, after, s, execution) &&
      SavedWith(before, after, s, batch)
    requires EventOk(before, e)
    ensures EventOk(after, e)
  {
    var key := Key(s.number, s.version);
    if e.key == key {
      NewStateChange(rules, before, after, s, execution);
      assert before.events[e] == 0;
    } else {
      OtherStateChanges(rules, before, after, s, execution, e.key);
      assert batch[e] == 0;
    }
  }

  lemma AddingKeepsStore(
    rules: Rules, before: Store, after: Store, s: Snapshot, execution: Option<Execution>, batch: multiset<Event>)
    requires StoreOk(rules, before) && Adds(rules, before, after, s, execution) && SavedWith(before, after, s, batch)
    ensures StoreOk(rules, after)
  {
    AddingKeepsCounted(rules, before, after, s, execution);
    AddingKeepsCurrents(rules, before, after, s, execution);
    AddingKeepsVersions(rules, before, after, s, execution);
    AddingKeepsKeys(rules, before, after, s, execution);
    AddingKeepsSources(rules, before, after, s, execution);
    forall e: Event
      ensures EventOk(after, e)
    {
      AddingKeepsEvent(rules, before, after, s, execution, batch, e);
    }
  }

  /*** Every step keeps the invariant ***/

  ghost predicate ClientsOk(rules: Rules, s: State) {
    forall c :: c in s.clients ==> ClientOk(rules, s.store, s.clients[c])
  }

  lemma ClientsStayOk(rules: Rules, s: State, store: Store)
    requires ClientsOk(rules, s) && Grows(s.store, store)
    ensures ClientsOk(rules, s.(store := store))
  {
    forall c | c in s.clients
      ensures ClientOk(rules, store, s.clients[c])
    {
      GrowingKeepsClient(rules, s.store, store, s.clients[c]);
    }
  }

  lemma CreateKeepsInv(rules: Rules, s: State, snapshot: Snapshot)
    requires Sound(rules) && Inv(rules, s)
    ensures Inv(rules, Apply(rules, s, Create(snapshot)))
  {
    if rules.born(snapshot) && Persist(s.store, snapshot).Ok? {
      var store := Persist(s.store, snapshot).value;
      assert Adds(rules, s.store, store, snapshot, None);
      AddingKeepsStore(rules, s.store, store, snapshot, None, CreationEvents(snapshot));
      AddingGrows(rules, s.store, store, snapshot, None, CreationEvents(snapshot));
      ClientsStayOk(rules, s, store);
    }
  }

  /** A client that moves on without writing. */
  lemma MovingOnKeepsInv(rules: Rules, s: State, c: nat, client: Client)
    requires Inv(rules, s) && ClientOk(rules, s.store, client) && !(client.Done? && client.outcome.Committed?)
    ensures Inv(rules, With(s, c, client))
  {
  }

  lemma AnswerIsTrue(rules: Rules, s: State, r: Request, other: Client)
    requires OneVersionPerKey(s.store)
    requires !HasKey(s.store, r.number, r.idempotencyKey) ==> ClientOk(rules, s.store, other)
    ensures ClientOk(rules, s.store, Answer(FindCompleted(s.store, r), other, r))
  {
    if HasKey(s.store, r.number, r.idempotencyKey) {
      var k := RecordOf(s.store, r);
      assert FindCompleted(s.store, r) == if HasExecuted(s.store, r, k) then SameAction else OtherAction;
    }
  }

  /** The one record of a key decides the answer. */
  lemma RecordOf(store: Store, r: Request) returns (k: nat)
    requires OneVersionPerKey(store) && HasKey(store, r.number, r.idempotencyKey)
    ensures IsRecordedAt(store, r.number, r.idempotencyKey, k)
    ensures FindCompleted(store, r) == if HasExecuted(store, r, k) then SameAction else OtherAction
  {
    var key :| key in store.versions && key.number == r.number &&
      IsRecordedAt(store, r.number, r.idempotencyKey, key.version);
    k := key.version;
  }

  lemma LoadKeepsInv(rules: Rules, s: State, c: nat, r: Request)
    requires Inv(rules, s)
    ensures Inv(rules, Apply(rules, s, Load(c, r)))
  {
    if c !in s.clients {
      if r.number in s.store.current {
        assert CurrentOk(s.store, r.number);
        MovingOnKeepsInv(rules, s, c, Loaded(r, s.store.current[r.number]));
      } else {
        MovingOnKeepsInv(rules, s, c, Done(r, NotFound));
      }
    }
  }

  lemma LookKeepsInv(rules: Rules, s: State, c: nat)
    requires Inv(rules, s)
    ensures Inv(rules, Apply(rules, s, Look(c)))
  {
    if c in s.clients && s.clients[c].Loaded? {
      var r := s.clients[c].request;
      AnswerIsTrue(rules, s, r, s.clients[c]);
      MovingOnKeepsInv(rules, s, c, Answer(FindCompleted(s.store, r), s.clients[c], r));
    }
  }

  lemma CheckKeepsInv(rules: Rules, s: State, c: nat, next: Snapshot, pay: bool)
    requires Inv(rules, s)
    ensures Inv(rules, Apply(rules, s, Check(c, next, pay)))
  {
    if c in s.clients && s.clients[c].Loaded? &&
      rules.follows(s.clients[c].current, s.clients[c].request.action, next) {
      var r := s.clients[c].request;
      var checked := Checked(r, s.clients[c].current, next, pay);
      AnswerIsTrue(rules, s, r, checked);
      MovingOnKeepsInv(rules, s, c, Answer(FindCompleted(s.store, r), checked, r));
    }
  }

  lemma ResolveKeepsInv(rules: Rules, s: State, c: nat)
    requires Inv(rules, s)
    ensures Inv(rules, Apply(rules, s, Resolve(c)))
  {
    if c in s.clients && s.clients[c].Lost? {
      var r := s.clients[c].request;
      var other := Done(r, if r.number in s.store.current then Stale else NotFound);
      AnswerIsTrue(rules, s, r, other);
      MovingOnKeepsInv(rules, s, c, Answer(FindCompleted(s.store, r), other, r));
    }
  }

  /**
   The version check alone decides a commit: while the version read is current, neither
   unique index can refuse what follows it.
   */
  lemma IndexesNeverRefuse(rules: Rules, store: Store, client: Client)
    requires Sound(rules) && StoreOk(rules, store) && client.Checked? && ClientOk(rules, store, client)
    ensures
      var commit := Commit(store, client.request, client.current, client.next, client.pay);
      commit.Ok? <==> store.current[client.request.number] == client.current
    ensures
      var commit := Commit(store, client.request, client.current, client.next, client.pay);
      commit.Err? ==> commit.error == ConcurrentUpdate
  {
    assert CurrentOk(store, client.request.number);
  }

  lemma WriteKeepsInv(rules: Rules, s: State, c: nat)
    requires Sound(rules) && Inv(rules, s)
    ensures Inv(rules, Apply(rules, s, Write(c)))
  {
    if c in s.clients && s.clients[c].Checked? {
      var client := s.clients[c];
      var commit := Commit(s.store, client.request, client.current, client.next, client.pay);
      if commit.Err? {
        MovingOnKeepsInv(rules, s, c, Lost(client.request));
      } else {
        CommitKeepsInv(rules, s, c, client, commit.value);
      }
    }
  }

  /** What a commit does to the store: one version more, the next, and nothing lost. */
  lemma CommitKeepsStore(rules: Rules, before: Store, client: Client, after: Store)
    requires Sound(rules) && StoreOk(rules, before) && client.Checked? && ClientOk(rules, before, client)
    requires Commit(before, client.request, client.current, client.next, client.pay) == Ok(after)
    ensures StoreOk(rules, after) && Grows(before, after) &&
      Key(client.next.number, client.next.version) !in before.versions
  {
    var r, next := client.request, client.next;
    var execution := Some(Execution(r.action, r.idempotencyKey));
    IndexesNeverRefuse(rules, before, client);
    assert Adds(rules, before, after, next, execution);
    var batch := ActionEvents(client.current, next, client.pay);
    AddingGrows(rules, before, after, next, execution, batch);
    AddingKeepsStore(rules, before, after, next, execution, batch);
  }

  lemma CommittedIsTrue(rules: Rules, before: Store, client: Client, after: Store)
    requires Sound(rules) && client.Checked? && ClientOk(rules, before, client)
    requires EventOk(before, PaymentRequested(Key(client.next.number, client.next.version)))
    requires Commit(before, client.request, client.current, client.next, client.pay) == Ok(after)
    ensures ClientOk(rules, after, Done(client.request, Committed(client.next.version, client.pay)))
    ensures client.request.number == client.next.number
  {
    assert HasExecuted(after, client.request, client.next.version);
  }

  lemma CommitKeepsInv(rules: Rules, s: State, c: nat, client: Client, store: Store)
    requires Sound(rules) && Inv(rules, s) && c in s.clients && s.clients[c] == client && client.Checked?
    requires Commit(s.store, client.request, client.current, client.next, client.pay) == Ok(store)
    ensures Inv(rules, State(store, s.clients[c := Done(client.request, Committed(client.next.version, client.pay))]))
  {
    CommitKeepsStore(rules, s.store, client, store);
    CommittedIsTrue(rules, s.store, client, store);
    ClientsStayOk(rules, s, store);
    NewVersionIsTheWriters(rules, s, client.next);
  }

  /** Nobody has yet written a version that is not stored. */
  lemma NewVersionIsTheWriters(rules: Rules, s: State, next: Snapshot)
    requires ClientsOk(rules, s) && Key(next.number, next.version) !in s.store.versions
    ensures forall d :: d in s.clients && s.clients[d].Done? && s.clients[d].request.number == next.number ==>
      !(s.clients[d].outcome.Committed? && s.clients[d].outcome.version == next.version)
  {
    forall d | d in s.clients && s.clients[d].Done? && s.clients[d].request.number == next.number
      ensures !(s.clients[d].outcome.Committed? && s.clients[d].outcome.version == next.version)
    {
      assert ClientOk(rules, s.store, s.clients[d]);
    }
  }

  lemma StepKeepsInv(rules: Rules, s: State, step: Step)
    requires Sound(rules) && Inv(rules, s)
    ensures Inv(rules, Apply(rules, s, step))
  {
    match step
    case Create(snapshot) => CreateKeepsInv(rules, s, snapshot);
    case Load(c, r) => LoadKeepsInv(rules, s, c, r);
    case Look(c) => LookKeepsInv(rules, s, c);
    case Check(c, next, pay) => CheckKeepsInv(rules, s, c, next, pay);
    case Write(c) => WriteKeepsInv(rules, s, c);
    case Resolve(c) => ResolveKeepsInv(rules, s, c);
  }

  /*** What a request comes to ***/

  /** A request that nothing gets in the way of commits: it reads the current agreement, follows it and is recorded. */
  lemma UndisturbedRequestCommits(rules: Rules, s: State, c: nat, r: Request, next: Snapshot, pay: bool)
    returns (s2: State, s3: State)
    requires Sound(rules) && Inv(rules, s) && c !in s.clients && r.number in s.store.current
    requires !HasKey(s.store, r.number, r.idempotencyKey) && rules.follows(s.store.current[r.number], r.action, next)
    ensures s2 == Apply(rules, Apply(rules, s, Load(c, r)), Check(c, next, pay)) && s3 == Apply(rules, s2, Write(c))
    ensures c in s3.clients && s3.clients[c] == Done(r, Committed(next.version, pay))
    ensures s3.store.current == s.store.current[r.number := next]
    ensures s3.store.versions ==
      s.store.versions[Key(r.number, next.version) := Version(next, Some(Execution(r.action, r.idempotencyKey)))]
    ensures s3.store.events ==
      s.store.events +
      (if s.store.current[r.number].state == next.state then multiset{}
       else multiset{Lifecycle(Key(r.number, next.version), next.state),
         StatusChanged(Key(r.number, next.version), next.state)}) +
      (if pay then multiset{PaymentRequested(Key(r.number, next.version))} else multiset{})
  {
    var s1 := Apply(rules, s, Load(c, r));
    LoadKeepsInv(rules, s, c, r);
    CheckKeepsInv(rules, s1, c, next, pay);
    s2 := Apply(rules, s1, Check(c, next, pay));
    s3 := Apply(rules, s2, Write(c));
    assert CurrentOk(s.store, r.number);
    IndexesNeverRefuse(rules, s2.store, s2.clients[c]);
  }

  /** A creation succeeds exactly if its number and its source are free, and then is stored as the first version. */
  lemma CreatesExactly(rules: Rules, s: State, snapshot: Snapshot)
    requires Inv(rules, s) && rules.born(snapshot) && snapshot.version == 1
    ensures
      var free := snapshot.number !in s.store.current &&
        forall n :: n in s.store.current ==> s.store.current[n].source != snapshot.source;
      var s1 := Apply(rules, s, Create(snapshot));
      if free then
        && s1.store.current == s.store.current[snapshot.number := snapshot]
        && s1.store.versions == s.store.versions[Key(snapshot.number, 1) := Version(snapshot, None)]
      else s1 == s
  {
  }

  /** A request for an agreement there is starts from what is current; for any other it is told so at once. */
  lemma LoadsExactly(rules: Rules, s: State, c: nat, r: Request)
    requires c !in s.clients
    ensures
      var s1 := Apply(rules, s, Load(c, r));
      && s1.store == s.store && c in s1.clients
      && s1.clients[c] == if r.number in s.store.current then Loaded(r, s.store.current[r.number])
        else Done(r, NotFound)
  {
  }

  /**
   A request that lost, and whose key nobody used, is told that its version is stale: the
   agreement itself is there.
   */
  lemma LoserIsToldStale(rules: Rules, s: State, c: nat)
    requires Inv(rules, s) && c in s.clients && s.clients[c].Lost?
    requires !HasKey(s.store, s.clients[c].request.number, s.clients[c].request.idempotencyKey)
    ensures Apply(rules, s, Resolve(c)).store == s.store
    ensures
      c in Apply(rules, s, Resolve(c)).clients &&
      Apply(rules, s, Resolve(c)).clients[c] == Done(s.clients[c].request, Stale)
  {
    assert ClientOk(rules, s.store, s.clients[c]);
  }
}
