/**
 Lifecycles and the transitions they allow: which action leads where, and what an
 agreement becomes when it is taken.
 */
module AgreementLifecycle {
  import opened Wrappers
  import opened Collections
  import opened AgreementStore
  import AgreementIdentity
  import AgreementReconcile
  import AgreementHistory

  /** For every state, the actions it offers and the state each leads to. */
  datatype Definition = Definition(initial: string, states: map<string, map<string, string>>, configVersion: string)

  datatype LifecycleError =
    | UnknownState(state: string)
    | InvalidTransition(from: string, available: set<string>)
    | Ambiguous

  function ResolveAction(d: Definition, state: string, action: string): Result<string, LifecycleError> {
    if state !in d.states then Err(UnknownState(state))
    else if action !in d.states[state] then Err(InvalidTransition(state, d.states[state].Keys))
    else Ok(d.states[state][action])
  }

  function ActionsTo(d: Definition, state: string, target: string): set<string>
    requires state in d.states
  {
    set a | a in d.states[state] && d.states[state][a] == target
  }

  /** The action that leads from a state to a target: there must be exactly one. */
  function ResolveActionForTarget(d: Definition, state: string, target: string): (r: Result<string, LifecycleError>)
    ensures r.Ok? ==> ResolveAction(d, state, r.value) == Ok(target)
  {
    if state !in d.states then Err(UnknownState(state))
    else
      var matches := ActionsTo(d, state, target);
      if matches == {} then Err(InvalidTransition(state, d.states[state].Keys))
      else if |matches| > 1 then Err(Ambiguous)
      else
        OnlyOne(matches);
        var a :| a in matches; Ok(a)
  }

  lemma OnlyOne<T>(xs: set<T>)
    requires |xs| == 1
    ensures forall x, y :: x in xs && y in xs ==> x == y
  {
    forall x, y | x in xs && y in xs
      ensures x == y
    {
      assert |xs - {x}| == 0;
    }
  }

  /** A target resolves exactly to the one action that leads there. */
  lemma TargetResolvesToItsOnlyAction(d: Definition, state: string, target: string, action: string)
    ensures ResolveActionForTarget(d, state, target) == Ok(action) <==>
      && ResolveAction(d, state, action) == Ok(target)
      && forall other :: ResolveAction(d, state, other) == Ok(target) ==> other == action
  {
    if state in d.states {
      var matches := ActionsTo(d, state, target);
      assert forall a :: a in matches <==> ResolveAction(d, state, a) == Ok(target);
      if ResolveAction(d, state, action) == Ok(target) &&
        forall other :: ResolveAction(d, state, other) == Ok(target) ==> other == action {
        assert matches == {action};
      } else if ResolveActionForTarget(d, state, target) == Ok(action) {
        OnlyOne(matches);
      }
    }
  }

  /** An action is refused exactly if the state is unknown, or does not offer it; then it is told what is offered. */
  lemma ActionResolvesExactly(d: Definition, state: string, action: string, target: string)
    ensures ResolveAction(d, state, action) == Ok(target) <==> Leads(d, state, action, target)
    ensures ResolveAction(d, state, action).Err? && state in d.states ==>
      action !in d.states[state] &&
      ResolveAction(d, state, action).error == InvalidTransition(state, d.states[state].Keys)
    ensures state !in d.states ==> ResolveAction(d, state, action) == Err(UnknownState(state))
  {
  }

  /*** Taking an action ***/

  function ResolveAcceptedAt(v: Snapshot, target: string, at: Time): Option<Time> {
    if v.acceptedAt.Some? then v.acceptedAt else if target == "accepted" then Some(at) else None
  }

  /** The next snapshot; only acceptance moves the agreement to the definition's own version. */
  function Transition(
    v: Snapshot, target: string, at: Time, identity: AgreementIdentity.Agreement, content: string,
    configVersion: Option<string>): Snapshot
  {
    Snapshot(v.number, v.version + 1, v.source, target, configVersion.GetOr(v.configVersion),
      ResolveAcceptedAt(v, target, at), at, identity, content)
  }

  /** What the processes of an action produced: values kept or a candidate for new ones. */
  datatype Produced = Produced(at: Time, change: AgreementHistory.Change, content: string)

  datatype ActionError = NotAllowed(why: LifecycleError) | NotReconciled(failure: AgreementIdentity.Failure)

  function ExecuteAction(d: Definition, v: Snapshot, action: string, p: Produced): Result<Snapshot, ActionError> {
    match ResolveAction(d, v.state, action)
    case Err(e) => Err(NotAllowed(e))
    case Ok(target) =>
      match AgreementHistory.Apply(v.identity, p.change)
      case Err(e) => Err(NotReconciled(e))
      case Ok(identity) =>
        var configVersion := if target == "accepted" then Some(d.configVersion) else None;
        Ok(Transition(v, target, p.at, identity, p.content, configVersion))
  }

  predicate IsProduced(v: Snapshot, p: Produced) {
    p.change.Revise? ==> AgreementHistory.SchemaOk(Some(v.identity), p.change.candidate)
  }

  /** Some published definition allows the action, and its execution gives `w`. */
  ghost predicate IsTransition(defs: set<Definition>, v: Snapshot, action: string, w: Snapshot) {
    exists d, p :: d in defs && IsProduced(v, p) && ExecuteAction(d, v, action, p) == Ok(w)
  }

  /** A newly created agreement: first version, initial state, never accepted, identities just allocated. */
  ghost predicate IsCreated(defs: set<Definition>, s: Snapshot) {
    && s.version == 1
    && (exists d :: d in defs && s.state == d.initial && s.configVersion == d.configVersion)
    && s.acceptedAt.None?
    && exists c :: IsMaterialisedFrom(c, s.identity)
  }

  predicate IsMaterialisedFrom(c: AgreementIdentity.Candidate, identity: AgreementIdentity.Agreement) {
    && AgreementHistory.SchemaOk(None, c)
    && AgreementReconcile.Reconcile(None, c).Ok?
    && identity == AgreementIdentity.Build(AgreementReconcile.Reconcile(None, c).value, None)
  }

  /** In the one state the definition offers the action, and it goes to the other. */
  predicate Leads(d: Definition, state: string, action: string, target: string) {
    state in d.states && action in d.states[state] && d.states[state][action] == target
  }

  /** Acceptance moves the agreement to the definition it was accepted under; nothing else moves it. */
  predicate MovesVersion(d: Definition, v: Snapshot, w: Snapshot) {
    w.configVersion == if w.state == "accepted" then d.configVersion else v.configVersion
  }

  /**
   One version on, of the same agreement and source, by an action some definition allows;
   the acceptance time is kept once there is one, set on acceptance, and otherwise absent;
   and acceptance alone moves the agreement to its definition's version.
   */
  ghost predicate MovesOn(defs: set<Definition>, v: Snapshot, action: string, w: Snapshot) {
    && w.number == v.number && w.version == v.version + 1 && w.source == v.source
    && (exists d :: d in defs && Leads(d, v.state, action, w.state) && MovesVersion(d, v, w))
    && (v.acceptedAt.Some? ==> w.acceptedAt == v.acceptedAt)
    && (v.acceptedAt.None? ==> w.acceptedAt == if w.state == "accepted" then Some(w.updatedAt) else None)
    && AgreementHistory.IsNext(v.identity, w.identity)
  }

  /** What holds of one transition, whatever the definition. */
  lemma TransitionMeans(defs: set<Definition>, v: Snapshot, action: string, w: Snapshot)
    requires IsTransition(defs, v, action, w)
    ensures MovesOn(defs, v, action, w)
  {
    var d, p :| d in defs && IsProduced(v, p) && ExecuteAction(d, v, action, p) == Ok(w);
    ExecutedMeans(d, v, action, p, w);
    ExecutedIsNext(d, v, action, p, w);
  }

  lemma ExecutedMeans(d: Definition, v: Snapshot, action: string, p: Produced, w: Snapshot)
    requires ExecuteAction(d, v, action, p) == Ok(w)
    ensures Leads(d, v.state, action, w.state) && MovesVersion(d, v, w)
    ensures w.number == v.number && w.version == v.version + 1 && w.source == v.source
    ensures v.acceptedAt.Some? ==> w.acceptedAt == v.acceptedAt
    ensures v.acceptedAt.None? ==> w.acceptedAt == if w.state == "accepted" then Some(w.updatedAt) else None
    ensures w.updatedAt == p.at && w.content == p.content
  {
  }

  lemma ExecutedIsNext(d: Definition, v: Snapshot, action: string, p: Produced, w: Snapshot)
    requires IsProduced(v, p) && ExecuteAction(d, v, action, p) == Ok(w)
    ensures AgreementHistory.IsNext(v.identity, w.identity)
  {
    assert AgreementHistory.Apply(v.identity, p.change) == Ok(w.identity);
  }

  lemma CreatedIsBounded(defs: set<Definition>, s: Snapshot)
    requires IsCreated(defs, s)
    ensures AgreementHistory.Bounded(s.identity)
    ensures forall ns :: Distinct(AgreementIdentity.IdsOf(s.identity.values, ns))
  {
    var c :| IsMaterialisedFrom(c, s.identity);
    MaterialisedIsBounded(c, s.identity);
  }

  lemma MaterialisedIsBounded(c: AgreementIdentity.Candidate, identity: AgreementIdentity.Agreement)
    requires IsMaterialisedFrom(c, identity)
    ensures AgreementHistory.Bounded(identity)
    ensures forall ns :: Distinct(AgreementIdentity.IdsOf(identity.values, ns))
  {
    AgreementHistory.BuiltIsBounded(identity.values, None);
    forall ns
      ensures Distinct(AgreementIdentity.IdsOf(identity.values, ns))
    {
      AgreementHistory.CreatedIdsAreDistinct(c, ns);
    }
  }

  /** The lifecycle agreements have unless their definition says otherwise. */
  const DEFAULT_STATES: map<string, map<string, string>> := map[
    "offered" := map["accept" := "accepted", "withdraw" := "withdrawn", "cancel" := "cancelled"],
    "accepted" := map["terminate" := "terminated"],
    "withdrawn" := map[],
    "cancelled" := map[],
    "terminated" := map[]]

  /** What it offers: in each state the actions, one for each target. */
  lemma DefaultOffers(d: Definition)
    requires IsDefault(d)
    ensures ResolveActionForTarget(d, "offered", "accepted") == Ok("accept")
    ensures ResolveActionForTarget(d, "offered", "withdrawn") == Ok("withdraw")
    ensures ResolveActionForTarget(d, "offered", "cancelled") == Ok("cancel")
    ensures ResolveActionForTarget(d, "accepted", "terminated") == Ok("terminate")
    ensures forall state, action, target :: Leads(d, state, action, target) ==>
      (state == "offered" && target in {"accepted", "withdrawn", "cancelled"}) ||
        (state == "accepted" && target == "terminated")
  {
    TargetResolvesToItsOnlyAction(d, "offered", "accepted", "accept");
    TargetResolvesToItsOnlyAction(d, "offered", "withdrawn", "withdraw");
    TargetResolvesToItsOnlyAction(d, "offered", "cancelled", "cancel");
    TargetResolvesToItsOnlyAction(d, "accepted", "terminated", "terminate");
  }

  predicate IsDefault(d: Definition) {
    d.initial == "offered" && d.states == DEFAULT_STATES
  }
}
