/**
 What holds of every agreement in every run of racing clients.
 */
module AgreementRuns {
  import opened Wrappers
  import opened AgreementStore
  import opened AgreementCommit
  import opened AgreementLifecycle
  import AgreementIdentity
  import AgreementHistory

  ghost function Start(): State {
    State(Store(map[], map[], multiset{}), map[])
  }

  ghost function Exec(rules: Rules, s: State, steps: seq<Step>): State {
    if steps == [] then s
    else Apply(rules, Exec(rules, s, steps[..|steps| - 1]), steps[|steps| - 1])
  }

  lemma {:induction false} RunKeepsInv(rules: Rules, steps: seq<Step>)
    requires Sound(rules)
    ensures Inv(rules, Exec(rules, Start(), steps))
  {
    if steps != [] {
      RunKeepsInv(rules, steps[..|steps| - 1]);
      StepKeepsInv(rules, Exec(rules, Start(), steps[..|steps| - 1]), steps[|steps| - 1]);
    } else {
      forall e: Event
        ensures EventOk(Start().store, e)
      {
      }
    }
  }

  /** The rules that published definitions make. */
  ghost function RulesOf(defs: set<Definition>): Rules {
    Rules(s => IsCreated(defs, s), (v, a, w) => IsTransition(defs, v, a, w))
  }

  lemma RulesAreSound(defs: set<Definition>)
    ensures Sound(RulesOf(defs))
  {
    forall v, a, w | RulesOf(defs).follows(v, a, w)
      ensures w.number == v.number && w.version == v.version + 1 && w.source == v.source
    {
      TransitionMeans(defs, v, a, w);
    }
  }

  /** What every run keeps, under the rules that some definitions make. */
  ghost predicate Lawful(defs: set<Definition>, s: State) {
    Inv(RulesOf(defs), s)
  }

  lemma EveryRunIsLawful(defs: set<Definition>, steps: seq<Step>)
    ensures Lawful(defs, Exec(RulesOf(defs), Start(), steps))
  {
    RulesAreSound(defs);
    RunKeepsInv(RulesOf(defs), steps);
  }

  /*** Versions ***/

  /** Stored versions are exactly 1 to n, and the current document is the last one's snapshot. */
  ghost predicate OneToN(store: Store, n: Number) {
    && (n !in store.current ==> forall k: nat :: Key(n, k) !in store.versions)
    && (n in store.current ==>
          var current := store.current[n];
          && (forall k: nat :: Key(n, k) in store.versions <==> 1 <= k <= current.version)
          && Key(n, current.version) in store.versions
          && store.versions[Key(n, current.version)].snapshot == current)
  }

  lemma VersionsAreOneToN(defs: set<Definition>, s: State, n: Number)
    requires Lawful(defs, s)
    ensures OneToN(s.store, n)
  {
    if n in s.store.current {
      assert CurrentOk(s.store, n);
    }
  }

  /** The first version is a created agreement; each later one is a lifecycle transition of the one before. */
  ghost predicate FollowsTheLast(rules: Rules, store: Store, n: Number, k: nat)
    requires Key(n, k) in store.versions
  {
    var v := store.versions[Key(n, k)];
    && v.snapshot.number == n && v.snapshot.version == k
    && (k == 1 ==> rules.born(v.snapshot) && v.execution.None?)
    && (k != 1 ==>
          && k > 1 && v.execution.Some? && Key(n, k - 1) in store.versions
          && rules.follows(store.versions[Key(n, k - 1)].snapshot, v.execution.value.name, v.snapshot))
  }

  lemma EachVersionFollowsTheLast(rules: Rules, s: State, n: Number, k: nat)
    requires Inv(rules, s) && Key(n, k) in s.store.versions
    ensures FollowsTheLast(rules, s.store, n, k)
  {
    assert VersionOk(rules, s.store, Key(n, k));
  }

  /** What following means under the rules that definitions make. */
  lemma FollowingMeans(defs: set<Definition>, v: Snapshot, action: string, w: Snapshot)
    requires RulesOf(defs).follows(v, action, w)
    ensures IsTransition(defs, v, action, w) && MovesOn(defs, v, action, w)
  {
    TransitionMeans(defs, v, action, w);
  }

  lemma AcceptedAtStep(defs: set<Definition>, s: State, n: Number, j: nat)
    requires Lawful(defs, s) && j > 1 && Key(n, j) in s.store.versions
    ensures Key(n, j - 1) in s.store.versions
    ensures
      var v, w := s.store.versions[Key(n, j - 1)].snapshot, s.store.versions[Key(n, j)].snapshot;
      && (v.acceptedAt.Some? ==> w.acceptedAt == v.acceptedAt)
      && (v.acceptedAt.None? ==> w.acceptedAt == if w.state == "accepted" then Some(w.updatedAt) else None)
  {
    EachVersionFollowsTheLast(RulesOf(defs), s, n, j);
    var w := s.store.versions[Key(n, j)];
    FollowingMeans(defs, s.store.versions[Key(n, j - 1)].snapshot, w.execution.value.name, w.snapshot);
  }

  /** The version was reached by a transition to accepted. */
  predicate IsAcceptance(store: Store, n: Number, j: nat) {
    j >= 2 && Key(n, j) in store.versions && store.versions[Key(n, j)].snapshot.state == "accepted"
  }

  predicate IsFirstAcceptance(store: Store, n: Number, j: nat) {
    IsAcceptance(store, n, j) && forall i :: 2 <= i < j ==> !IsAcceptance(store, n, i)
  }

  /**
   A version has an acceptance time exactly if it, or one before it, was an acceptance; and it is
   that of the first.
   */
  predicate AcceptedExactly(store: Store, n: Number, k: nat)
    requires Key(n, k) in store.versions
  {
    var at := store.versions[Key(n, k)].snapshot.acceptedAt;
    && (at.Some? <==> exists j :: 2 <= j <= k && IsAcceptance(store, n, j))
    && (forall j :: 2 <= j <= k && IsFirstAcceptance(store, n, j) ==>
          at == Some(store.versions[Key(n, j)].snapshot.updatedAt))
  }

  lemma FirstIsNotAccepted(defs: set<Definition>, s: State, n: Number)
    requires Lawful(defs, s) && Key(n, 1) in s.store.versions
    ensures s.store.versions[Key(n, 1)].snapshot.acceptedAt.None?
  {
    EachVersionFollowsTheLast(RulesOf(defs), s, n, 1);
    assert IsCreated(defs, s.store.versions[Key(n, 1)].snapshot);
  }

  lemma AcceptedExactlyNext(store: Store, n: Number, k: nat)
    requires k > 1 && Key(n, k - 1) in store.versions && Key(n, k) in store.versions && AcceptedExactly(store, n, k - 1)
    requires
      var v, w := store.versions[Key(n, k - 1)].snapshot, store.versions[Key(n, k)].snapshot;
      && (v.acceptedAt.Some? ==> w.acceptedAt == v.acceptedAt)
      && (v.acceptedAt.None? ==> w.acceptedAt == if w.state == "accepted" then Some(w.updatedAt) else None)
    ensures AcceptedExactly(store, n, k)
  {
    if IsAcceptance(store, n, k) && store.versions[Key(n, k - 1)].snapshot.acceptedAt.Some? {
      var j :| 2 <= j <= k - 1 && IsAcceptance(store, n, j);
      assert !IsFirstAcceptance(store, n, k);
    }
  }

  lemma {:induction false} AcceptedSinceTheFirst(defs: set<Definition>, s: State, n: Number, k: nat)
    requires Lawful(defs, s) && Key(n, k) in s.store.versions
    ensures AcceptedExactly(s.store, n, k)
  {
    if k > 1 {
      AcceptedAtStep(defs, s, n, k);
      AcceptedSinceTheFirst(defs, s, n, k - 1);
      AcceptedExactlyNext(s.store, n, k);
    } else {
      EachVersionFollowsTheLast(RulesOf(defs), s, n, k);
      FirstIsNotAccepted(defs, s, n);
    }
  }

  /** Once set, `acceptedAt` is the same in every later version; a transition to accepted always leaves it set. */
  predicate AcceptedKept(store: Store, n: Number, i: nat, j: nat)
    requires Key(n, i) in store.versions && Key(n, j) in store.versions
  {
    var v, w := store.versions[Key(n, i)].snapshot, store.versions[Key(n, j)].snapshot;
    && (v.acceptedAt.Some? ==> w.acceptedAt == v.acceptedAt)
    && (j > 1 && w.state == "accepted" ==> w.acceptedAt.Some?)
  }

  lemma {:induction false} AcceptedOnce(defs: set<Definition>, s: State, n: Number, i: nat, j: nat)
    requires Lawful(defs, s) && 1 <= i <= j && Key(n, i) in s.store.versions && Key(n, j) in s.store.versions
    ensures AcceptedKept(s.store, n, i, j)
    decreases j
  {
    if j > 1 {
      AcceptedAtStep(defs, s, n, j);
    }
    if i < j {
      AcceptedOnce(defs, s, n, i, j - 1);
    }
  }

  /** Both lifecycle publications are saved, once, for exactly those versions whose state is new. */
  predicate ToldOfStateChanges(store: Store, key: Key, state: string) {
    && store.events[Lifecycle(key, state)] == store.events[StatusChanged(key, state)] <= 1
    && (store.events[Lifecycle(key, state)] == 1 <==>
          && key in store.versions
          && store.versions[key].snapshot.state == state
          && (key.version == 1 || (key.version > 1 && Key(key.number, key.version - 1) in store.versions &&
                store.versions[Key(key.number, key.version - 1)].snapshot.state != state)))
    && store.events[Created(key)] == if key in store.versions && key.version == 1 then 1 else 0
  }

  lemma PublicationsTellOfStateChanges(defs: set<Definition>, s: State, key: Key, state: string)
    requires Lawful(defs, s)
    ensures ToldOfStateChanges(s.store, key, state)
  {
    assert EventOk(s.store, Lifecycle(key, state)) && EventOk(s.store, StatusChanged(key, state)) &&
      EventOk(s.store, Created(key));
  }

  /** All of it together; and no source has two agreements, nor any key two versions of one. */
  ghost predicate StoreIsRight(defs: set<Definition>, store: Store) {
    && (forall n :: OneToN(store, n))
    && (forall n, k: nat {:trigger FollowsTheLast(RulesOf(defs), store, n, k)} ::
          Key(n, k) in store.versions ==> FollowsTheLast(RulesOf(defs), store, n, k))
    && (forall n, i: nat, j: nat {:trigger AcceptedKept(store, n, i, j)} ::
          i <= j && Key(n, i) in store.versions && Key(n, j) in store.versions ==> AcceptedKept(store, n, i, j))
    && (forall n, k: nat {:trigger AcceptedExactly(store, n, k)} ::
          Key(n, k) in store.versions ==> AcceptedExactly(store, n, k))
    && (forall key, state :: ToldOfStateChanges(store, key, state))
    && OneVersionPerKey(store)
    && OnePerSource(store)
  }

  /** Two requests carry one key for one agreement, and both committed. */
  predicate BothCommitted(s: State, c: nat, d: nat) {
    && c in s.clients && d in s.clients
    && s.clients[c].Done? && s.clients[d].Done?
    && s.clients[c].request.number == s.clients[d].request.number
    && s.clients[c].request.idempotencyKey == s.clients[d].request.idempotencyKey
    && s.clients[c].outcome.Committed? && s.clients[d].outcome.Committed?
  }

  /** The payment event of the version a request wrote is saved exactly if the request asked for it. */
  predicate PaidAsAsked(s: State, c: nat)
    requires c in s.clients && s.clients[c].Done? && s.clients[c].outcome.Committed?
  {
    s.store.events[PaymentRequested(Key(s.clients[c].request.number, s.clients[c].outcome.version))]
      == if s.clients[c].outcome.paid then 1 else 0
  }

  ghost predicate CommitsAreRight(s: State) {
    forall c, d :: BothCommitted(s, c, d) ==> c == d && PaidAsAsked(s, c)
  }

  lemma LawfulIsRight(defs: set<Definition>, s: State)
    requires Lawful(defs, s)
    ensures StoreIsRight(defs, s.store) && CommitsAreRight(s)
  {
    forall n
      ensures OneToN(s.store, n)
    {
      VersionsAreOneToN(defs, s, n);
    }
    forall n, k: nat | Key(n, k) in s.store.versions
      ensures FollowsTheLast(RulesOf(defs), s.store, n, k)
    {
      EachVersionFollowsTheLast(RulesOf(defs), s, n, k);
    }
    forall n, i: nat, j: nat | i <= j && Key(n, i) in s.store.versions && Key(n, j) in s.store.versions
      ensures AcceptedKept(s.store, n, i, j)
    {
      AcceptedOnce(defs, s, n, i, j);
    }
    forall n, k: nat | Key(n, k) in s.store.versions
      ensures AcceptedExactly(s.store, n, k)
    {
      AcceptedSinceTheFirst(defs, s, n, k);
    }
    forall key, state
      ensures ToldOfStateChanges(s.store, key, state)
    {
      PublicationsTellOfStateChanges(defs, s, key, state);
    }
    forall c, d | BothCommitted(s, c, d)
      ensures c == d && PaidAsAsked(s, c)
    {
      OneWritePerKey(defs, s, c, d);
    }
  }

  /** In every run of racing clients, for every agreement and every request. */
  lemma EveryRunIsRight(defs: set<Definition>, steps: seq<Step>)
    ensures StoreIsRight(defs, Exec(RulesOf(defs), Start(), steps).store)
    ensures CommitsAreRight(Exec(RulesOf(defs), Start(), steps))
  {
    EveryRunIsLawful(defs, steps);
    LawfulIsRight(defs, Exec(RulesOf(defs), Start(), steps));
  }

  /*** Idempotency ***/

  /** Of the requests with one key at most one committed, with the payment it asked for. */
  lemma OneWritePerKey(defs: set<Definition>, s: State, c: nat, d: nat)
    requires Lawful(defs, s) && BothCommitted(s, c, d)
    ensures c == d && PaidAsAsked(s, c)
  {
    assert ClientOk(RulesOf(defs), s.store, s.clients[c]) && ClientOk(RulesOf(defs), s.store, s.clients[d]);
    assert WroteTheSame(s.clients[c], s.clients[d]);
  }

  /** In every run a key is recorded with one version of an agreement at most. */
  lemma OneVersionOfAKey(defs: set<Definition>, steps: seq<Step>, n: Number, idempotencyKey: string, j: nat, k: nat)
    requires
      var store := Exec(RulesOf(defs), Start(), steps).store;
      IsRecordedAt(store, n, idempotencyKey, j) && IsRecordedAt(store, n, idempotencyKey, k)
    ensures j == k
  {
    EveryRunIsLawful(defs, steps);
  }

  /** A request that has not ended and whose key is recorded by now. */
  ghost predicate IsLate(s: State, c: nat, k: nat) {
    && c in s.clients && !s.clients[c].Done?
    && IsRecordedAt(s.store, s.clients[c].request.number, s.clients[c].request.idempotencyKey, k)
  }

  /** What a late request is to be told. */
  function LateOutcome(s: State, r: Request, k: nat): Outcome
    requires IsRecordedAt(s.store, r.number, r.idempotencyKey, k)
  {
    if s.store.versions[Key(r.number, k)].execution.value.name == r.action then AlreadyCompleted else KeyReused
  }

  lemma LateLookupDecides(s: State, r: Request, k: nat, other: Client)
    requires OneVersionPerKey(s.store) && IsRecordedAt(s.store, r.number, r.idempotencyKey, k)
    ensures Answer(FindCompleted(s.store, r), other, r) == Done(r, LateOutcome(s, r, k))
  {
    assert Key(r.number, k) in s.store.versions && HasKey(s.store, r.number, r.idempotencyKey);
    var k1 := RecordOf(s.store, r);
    assert k1 == k;
  }

  /** A request that checked before its key was recorded has lost its version as well. */
  lemma LateWriteIsLost(rules: Rules, s: State, c: nat, k: nat)
    requires Inv(rules, s) && IsLate(s, c, k) && s.clients[c].Checked?
    ensures Apply(rules, s, Write(c)) == With(s, c, Lost(s.clients[c].request))
  {
    var r := s.clients[c].request;
    assert Key(r.number, k) in s.store.versions && HasKey(s.store, r.number, r.idempotencyKey);
    assert ClientOk(rules, s.store, s.clients[c]);
  }

  /**
   Once a key is recorded, every request that carries it writes nothing: whenever it
   looks, it is told the action was completed if it is the same one, and refused if not.
   */
  lemma RecordedKeyDecides(rules: Rules, s: State, c: nat, k: nat, step: Step)
    requires Inv(rules, s) && IsLate(s, c, k)
    requires step == Look(c) || step == Write(c) || step == Resolve(c) || (step.Check? && step.c == c)
    ensures
      var t := Apply(rules, s, step);
      var r := s.clients[c].request;
      && t.store == s.store
      && c in t.clients && t.clients[c].request == r
      && (t.clients[c].Done? ==> t.clients[c].outcome == LateOutcome(s, r, k))
      && ((step.Look? && s.clients[c].Loaded?) || (step.Resolve? && s.clients[c].Lost?) ==> t.clients[c].Done?)
  {
    var r := s.clients[c].request;
    match step
    case Look(_) =>
      LateLookupDecides(s, r, k, s.clients[c]);
    case Check(_, next, pay) =>
      if s.clients[c].Loaded? {
        LateLookupDecides(s, r, k, Checked(r, s.clients[c].current, next, pay));
      }
    case Write(_) =>
      if s.clients[c].Checked? {
        LateWriteIsLost(rules, s, c, k);
      }
    case Resolve(_) =>
      LateLookupDecides(s, r, k, Done(r, if r.number in s.store.current then Stale else NotFound));
  }

  /*** Losers write nothing ***/

  /** The request a step is of, unless it creates. */
  function ClientOf(step: Step): Option<nat> {
    if step.Create? then None else Some(step.c)
  }

  /** A step changes the store only by creating, or by a write that ends its request as committed. */
  lemma OnlyCommitsWrite(rules: Rules, s: State, step: Step)
    requires !step.Create? && Apply(rules, s, step).store != s.store
    ensures step.Write? && step.c in s.clients && !s.clients[step.c].Done?
    ensures step.c in Apply(rules, s, step).clients
    ensures Apply(rules, s, step).clients[step.c].Done? && Apply(rules, s, step).clients[step.c].outcome.Committed?
  {
  }

  /** What a request was told stays so, and nothing more is done for it. */
  lemma {:induction false} DoneIsFinal(rules: Rules, s: State, steps: seq<Step>, c: nat)
    requires c in s.clients && s.clients[c].Done?
    ensures c in Exec(rules, s, steps).clients && Exec(rules, s, steps).clients[c] == s.clients[c]
  {
    if steps != [] {
      DoneIsFinal(rules, s, steps[..|steps| - 1], c);
      DoneStays(rules, Exec(rules, s, steps[..|steps| - 1]), steps[|steps| - 1], c);
    }
  }

  lemma DoneStays(rules: Rules, s: State, step: Step, c: nat)
    requires c in s.clients && s.clients[c].Done?
    ensures c in Apply(rules, s, step).clients && Apply(rules, s, step).clients[c] == s.clients[c]
  {
  }

  lemma {:induction false} ExecSplits(rules: Rules, s: State, steps: seq<Step>, i: nat)
    requires i <= |steps|
    ensures Exec(rules, s, steps) == Exec(rules, Exec(rules, s, steps[..i]), steps[i..])
  {
    if i == |steps| {
      assert steps[..i] == steps && steps[i..] == [];
    } else {
      var init := steps[..|steps| - 1];
      ExecSplits(rules, s, init, i);
      assert init[..i] == steps[..i] && steps[i..][..|steps[i..]| - 1] == init[i..];
    }
  }

  /** Over a whole run a request that ends any other way than committed never changed the store. */
  lemma LoserWritesNothing(rules: Rules, steps: seq<Step>, i: nat, c: nat)
    requires i < |steps| && ClientOf(steps[i]) == Some(c)
    requires
      var end := Exec(rules, Start(), steps);
      c in end.clients ==> !(end.clients[c].Done? && end.clients[c].outcome.Committed?)
    ensures Apply(rules, Exec(rules, Start(), steps[..i]), steps[i]).store == Exec(rules, Start(), steps[..i]).store
  {
    var before := Exec(rules, Start(), steps[..i]);
    var after := Apply(rules, before, steps[i]);
    if after.store != before.store {
      OnlyCommitsWrite(rules, before, steps[i]);
      assert steps[..i + 1][..i] == steps[..i];
      assert after == Exec(rules, Start(), steps[..i + 1]);
      ExecSplits(rules, Start(), steps, i + 1);
      DoneIsFinal(rules, after, steps[i + 1..], c);
      assert false;
    }
  }

  /*** Identities ***/

  function HistoryOf(store: Store, n: Number): (vs: seq<AgreementIdentity.Agreement>)
    requires n in store.current && forall k :: 1 <= k <= store.current[n].version ==> Key(n, k) in store.versions
    ensures |vs| == store.current[n].version
  {
    seq(store.current[n].version, i requires 0 <= i < store.current[n].version =>
      store.versions[Key(n, i + 1)].snapshot.identity)
  }

  /** The versions of an agreement, in any run, are a history of its identities. */
  lemma VersionsAreAHistory(defs: set<Definition>, s: State, n: Number)
    requires Lawful(defs, s) && n in s.store.current
    ensures forall k :: 1 <= k <= s.store.current[n].version ==> Key(n, k) in s.store.versions
    ensures (forall i :: 0 <= i < |HistoryOf(s.store, n)| ==> AgreementHistory.IsSafe(HistoryOf(s.store, n)[i])) ==>
      AgreementHistory.IsHistory(HistoryOf(s.store, n))
  {
    var vs := HistoryOf(s.store, n);
    assert vs != [] && AgreementHistory.Bounded(vs[0]) by {
      FirstIsBounded(defs, s, n);
    }
    forall i | 0 < i < |vs|
      ensures AgreementHistory.NextAt(AgreementHistory.Transitions(), vs, i)
    {
      HistoryNextAt(defs, s, n, vs, i);
    }
  }

  lemma HistoryNextAt(defs: set<Definition>, s: State, n: Number, vs: seq<AgreementIdentity.Agreement>, i: nat)
    requires Lawful(defs, s) && n in s.store.current && 0 < i < |vs|
    requires forall k :: 1 <= k <= s.store.current[n].version ==> Key(n, k) in s.store.versions
    requires vs == HistoryOf(s.store, n)
    ensures AgreementHistory.NextAt(AgreementHistory.Transitions(), vs, i)
  {
    assert i < s.store.current[n].version;
    var v, w := s.store.versions[Key(n, i)].snapshot.identity, s.store.versions[Key(n, i + 1)].snapshot.identity;
    assert vs[i - 1] == v && vs[i] == w;
    NextOfRun(defs, s, n, i);
    AgreementHistory.PlacedNext(vs, i, v, w);
  }

  lemma FirstIsBounded(defs: set<Definition>, s: State, n: Number)
    requires Lawful(defs, s) && n in s.store.current
    ensures Key(n, 1) in s.store.versions && AgreementHistory.Bounded(s.store.versions[Key(n, 1)].snapshot.identity)
    ensures s.store.current[n].version >= 1
  {
    VersionsAreOneToN(defs, s, n);
    EachVersionFollowsTheLast(RulesOf(defs), s, n, s.store.current[n].version);
    EachVersionFollowsTheLast(RulesOf(defs), s, n, 1);
    CreatedIsBounded(defs, s.store.versions[Key(n, 1)].snapshot);
  }

  lemma NextOfRun(defs: set<Definition>, s: State, n: Number, i: nat)
    requires Lawful(defs, s) && n in s.store.current && 0 < i < s.store.current[n].version
    ensures Key(n, i) in s.store.versions && Key(n, i + 1) in s.store.versions
    ensures AgreementHistory.IsNext(s.store.versions[Key(n, i)].snapshot.identity,
      s.store.versions[Key(n, i + 1)].snapshot.identity)
  {
    VersionsAreOneToN(defs, s, n);
    EachVersionFollowsTheLast(RulesOf(defs), s, n, i + 1);
    FollowingMeans(defs, s.store.versions[Key(n, i)].snapshot,
      s.store.versions[Key(n, i + 1)].execution.value.name, s.store.versions[Key(n, i + 1)].snapshot);
  }

  /** However clients race, an identity that one version lacks after an earlier had it is in none that follow. */
  lemma RemovedIdNeverReturns(
    defs: set<Definition>, s: State, n: Number, i: nat, j: nat, k: nat, ns: AgreementIdentity.Namespace, id: string)
    requires Lawful(defs, s) && n in s.store.current
    requires 1 <= i < j <= k <= s.store.current[n].version
    requires forall m :: 1 <= m <= s.store.current[n].version ==> Key(n, m) in s.store.versions
    requires forall m :: 1 <= m <= s.store.current[n].version ==>
      AgreementHistory.IsSafe(s.store.versions[Key(n, m)].snapshot.identity)
    requires id in AgreementIdentity.IdsOf(s.store.versions[Key(n, i)].snapshot.identity.values, ns)
    requires id !in AgreementIdentity.IdsOf(s.store.versions[Key(n, j)].snapshot.identity.values, ns)
    ensures id !in AgreementIdentity.IdsOf(s.store.versions[Key(n, k)].snapshot.identity.values, ns)
  {
    VersionsAreAHistory(defs, s, n);
    AgreementHistory.RemovedIdNeverReturns(HistoryOf(s.store, n), i - 1, j - 1, k - 1, ns, id);
  }

  /*** The default lifecycle ***/

  /** Where the default lifecycle leaves an agreement at its `k`th version. */
  predicate DefaultState(k: nat, state: string) {
    || (k == 1 && state == "offered")
    || (k == 2 && state in {"accepted", "withdrawn", "cancelled"})
    || (k == 3 && state == "terminated")
  }

  /** Under the default lifecycle no agreement ever has more than three versions. */
  lemma {:induction false} DefaultLifecycleEnds(defs: set<Definition>, s: State, n: Number, k: nat)
    requires Lawful(defs, s) && (forall d :: d in defs ==> IsDefault(d)) && Key(n, k) in s.store.versions
    ensures DefaultState(k, s.store.versions[Key(n, k)].snapshot.state)
  {
    EachVersionFollowsTheLast(RulesOf(defs), s, n, k);
    var w := s.store.versions[Key(n, k)];
    if k > 1 {
      var v := s.store.versions[Key(n, k - 1)].snapshot;
      DefaultLifecycleEnds(defs, s, n, k - 1);
      FollowingMeans(defs, v, w.execution.value.name, w.snapshot);
      DefaultStep(defs, v.state, w.execution.value.name, w.snapshot.state, k - 1);
    }
  }

  lemma DefaultStep(defs: set<Definition>, state: string, action: string, target: string, k: nat)
    requires forall d :: d in defs ==> IsDefault(d)
    requires exists d :: d in defs && Leads(d, state, action, target)
    requires DefaultState(k, state)
    ensures DefaultState(k + 1, target)
  {
    var d :| d in defs && Leads(d, state, action, target);
    assert d.states == DEFAULT_STATES;
  }
}
