/**
 What reconciliation promises of a whole agreement, and what identities keep over
 every chain of versions.
 */
module AgreementHistory {
  import opened Wrappers
  import opened Collections
  import opened AgreementIdentity
  import opened AgreementReconcile

  /*** One reconciliation ***/

  /** The ids a candidate asks for, in order. */
  function WantedIds(c: Candidate, ns: Namespace): seq<Option<string>> {
    match ns
    case Actions => seq(|c.actions|, i requires 0 <= i < |c.actions| => c.actions[i].id)
    case Items => seq(|c.items|, i requires 0 <= i < |c.items| => c.items[i].id)
    case Instalments =>
      if c.schedule.None? then []
      else
        var cs := c.schedule.value.instalments;
        seq(|cs|, i requires 0 <= i < |cs| => cs[i].id)
  }

  /** Every id is the one selected, which exists, or else a fresh one; fresh ones are numbered in order. */
  predicate Drawn(mode: Mode, ns: Namespace, start: nat, wanted: seq<Option<string>>, ids: seq<string>) {
    && |ids| == |wanted|
    && (forall i :: 0 <= i < |ids| ==>
          if Selects(mode, wanted[i]) then ids[i] == wanted[i].value && ids[i] in mode.existing
          else start <= IdentityOrdinal(ids[i], ns))
    && (forall i, j :: 0 <= i < j < |ids| && !Selects(mode, wanted[i]) && !Selects(mode, wanted[j]) ==>
          IdentityOrdinal(ids[i], ns) < IdentityOrdinal(ids[j], ns))
  }

  predicate ContentsKept(entries: seq<CandidateEntry>, values: seq<Entry>) {
    |values| == |entries| && forall i :: 0 <= i < |values| ==> values[i].content == entries[i].content
  }

  /** Instalments in order, their content kept, every line item naming the entry it meant. */
  predicate ScheduleKept(c: Candidate, values: Values) {
    && (values.schedule.Some? <==> c.schedule.Some?)
    && (values.schedule.Some? ==>
          var was, now := c.schedule.value, values.schedule.value;
          && now.content == was.content
          && |now.instalments| == |was.instalments|
          && forall i :: 0 <= i < |now.instalments| ==>
               && now.instalments[i].content == was.instalments[i].content
               && LineItemsKept(was.instalments[i].lineItems, now.instalments[i].lineItems, c, values.actions,
                 values.items))
  }

  predicate Reconciled(current: Option<Agreement>, c: Candidate, values: Values) {
    && ContentsKept(c.actions, values.actions)
    && ContentsKept(c.items, values.items)
    && ScheduleKept(c, values)
    && forall ns :: DrawnFor(current, c, values, ns)
  }

  predicate DrawnFor(current: Option<Agreement>, c: Candidate, values: Values, ns: Namespace) {
    Drawn(ModeOf(current, ns), ns, StartOf(current, ns), WantedIds(c, ns), IdsOf(values, ns))
  }

  /** What the candidate schemas insist on of every line item. */
  predicate SchemaOk(current: Option<Agreement>, c: Candidate) {
    c.schedule.Some? ==>
      forall i :: 0 <= i < |c.schedule.value.instalments| ==>
        AllOneReference(ModeOf(current, Instalments), c.schedule.value.instalments[i].lineItems)
  }

  lemma EntriesAreDrawn(
    mode: Mode, ns: Namespace, start: nat, entries: seq<CandidateEntry>, m: Materialised,
    wanted: seq<Option<string>>)
    requires Materialises(mode, ns, start, entries, m)
    requires |wanted| == |entries| && forall i :: 0 <= i < |entries| ==> wanted[i] == entries[i].id
    ensures ContentsKept(entries, m.values) && Drawn(mode, ns, start, wanted, EntryIds(m.values))
  {
    var ids := EntryIds(m.values);
    assert forall i :: 0 <= i < |ids| ==> IsEntryOf(mode, ns, start, m.next, entries[i], m.values[i]);
  }

  lemma InstalmentsAreDrawn(
    mode: Mode, start: nat, c: Candidate, s: Scheduled, values: Values, wanted: seq<Option<string>>)
    requires c.schedule.Some? && values.schedule == Some(Schedule(s.instalments, c.schedule.value.content))
    requires InstalmentsKept(mode, start, c.schedule.value.instalments, s, c, values.actions, values.items)
    requires wanted == WantedIds(c, Instalments)
    ensures ScheduleKept(c, values) && Drawn(mode, Instalments, start, wanted, InstalmentIds(values.schedule))
  {
    var cs := c.schedule.value.instalments;
    assert forall i :: 0 <= i < |cs| ==>
      InstalmentKept(mode, start, s.next, cs[i], s.instalments[i], c, values.actions, values.items);
  }

  /** When the entries of one type can be materialised. */
  predicate EntriesOk(current: Option<Agreement>, entries: seq<CandidateEntry>, ns: Namespace) {
    DistinctRefs(entries) && SelectsOnlyExisting(ModeOf(current, ns), entries)
  }

  function EntriesFor(
    current: Option<Agreement>, entries: seq<CandidateEntry>, ns: Namespace): Result<Materialised, Failure> {
    Materialise(ModeOf(current, ns), ns, StartOf(current, ns), entries)
  }

  /** When a schedule can be: its ids selected exist and its line items refer to what is declared or survives. */
  predicate ScheduleOk(current: Option<Agreement>, c: Candidate)
    requires EntriesFor(current, c.actions, Actions).Ok? && EntriesFor(current, c.items, Items).Ok?
  {
    c.schedule.Some? ==>
      AllInstalmentsOk(ModeOf(current, Instalments), c.schedule.value.instalments, c,
        EntriesFor(current, c.actions, Actions).value.values, EntriesFor(current, c.items, Items).value.values)
  }

  /**
   Creation and transition alike: reconciliation succeeds exactly if references are
   declared once, ids selected exist and line items refer to something; then order and
   content are kept, every id is selected or fresh, and references lead where they meant.
   */
  lemma ReconcileMeans(current: Option<Agreement>, c: Candidate)
    requires SchemaOk(current, c)
    ensures EntriesFor(current, c.actions, Actions).Ok? <==> EntriesOk(current, c.actions, Actions)
    ensures EntriesFor(current, c.items, Items).Ok? <==> EntriesOk(current, c.items, Items)
    ensures Reconcile(current, c).Ok? <==>
      EntriesOk(current, c.actions, Actions) && EntriesOk(current, c.items, Items) && ScheduleOk(current, c)
    ensures Reconcile(current, c).Ok? ==> Reconciled(current, c, Reconcile(current, c).value)
  {
    MaterialiseMeans(ModeOf(current, Actions), Actions, StartOf(current, Actions), c.actions);
    MaterialiseMeans(ModeOf(current, Items), Items, StartOf(current, Items), c.items);
    var actions, items := EntriesFor(current, c.actions, Actions), EntriesFor(current, c.items, Items);
    if actions.Ok? && items.Ok? {
      ReconcileScheduleMeans(current, c, actions.value, items.value);
      if Reconcile(current, c).Ok? {
        ReconciledFrom(current, c, actions.value, items.value, Reconcile(current, c).value);
      }
    }
  }

  lemma ReconcileScheduleMeans(current: Option<Agreement>, c: Candidate, actions: Materialised, items: Materialised)
    requires SchemaOk(current, c)
    requires RefsOk(c.actions, actions) && RefsOk(c.items, items)
    ensures var r := ReconcileSchedule(current, c.schedule, actions, items);
      && (r.Ok? <==> (c.schedule.Some? ==>
            AllInstalmentsOk(ModeOf(current, Instalments), c.schedule.value.instalments, c, actions.values,
              items.values)))
      && (r.Ok? ==> ScheduleDrawn(current, c, Values(actions.values, items.values, r.value)))
  {
    var mode, start := ModeOf(current, Instalments), StartOf(current, Instalments);
    var wanted := WantedIds(c, Instalments);
    if c.schedule.Some? {
      var cs := c.schedule.value.instalments;
      ScheduleMeans(mode, start, cs, c, actions, items);
      var s := ScheduleAll(mode, start, cs, actions, items);
      if s.Ok? {
        var r := ReconcileSchedule(current, c.schedule, actions, items).value;
        InstalmentsAreDrawn(mode, start, c, s.value, Values(actions.values, items.values, r), wanted);
      }
    }
  }

  predicate ScheduleDrawn(current: Option<Agreement>, c: Candidate, values: Values) {
    ScheduleKept(c, values) && DrawnFor(current, c, values, Instalments)
  }

  lemma ReconciledFrom(
    current: Option<Agreement>, c: Candidate, actions: Materialised, items: Materialised, values: Values)
    requires Materialises(ModeOf(current, Actions), Actions, StartOf(current, Actions), c.actions, actions)
    requires Materialises(ModeOf(current, Items), Items, StartOf(current, Items), c.items, items)
    requires values.actions == actions.values && values.items == items.values && ScheduleDrawn(current, c, values)
    ensures Reconciled(current, c, values)
  {
    EntriesAreDrawn(ModeOf(current, Actions), Actions, StartOf(current, Actions), c.actions, actions,
      WantedIds(c, Actions));
    EntriesAreDrawn(ModeOf(current, Items), Items, StartOf(current, Items), c.items, items, WantedIds(c, Items));
    forall ns
      ensures DrawnFor(current, c, values, ns)
    {
      match ns
      case Actions => assert IdsOf(values, ns) == EntryIds(actions.values);
      case Items => assert IdsOf(values, ns) == EntryIds(items.values);
      case Instalments =>
    }
  }

  /*** The schema's own checks ***/

  /** A line item that names an action or item the agreement does not have. */
  predicate Dangles(l: LineItem, values: Values) {
    || (l.actionId.Some? && l.actionId.value != "" && l.actionId.value !in EntryIds(values.actions))
    || (l.itemId.Some? && l.itemId.value != "" && l.itemId.value !in EntryIds(values.items))
  }

  predicate HasDanglingReference(values: Values) {
    values.schedule.Some? &&
    exists i :: 0 <= i < |values.schedule.value.instalments| &&
      exists j :: 0 <= j < |values.schedule.value.instalments[i].lineItems| &&
        Dangles(values.schedule.value.instalments[i].lineItems[j], values)
  }

  /** The value schema's dangling-reference check never fails on what reconciliation gives. */
  lemma NothingDangles(current: Option<Agreement>, c: Candidate)
    requires SchemaOk(current, c) && Reconcile(current, c).Ok?
    ensures !HasDanglingReference(Reconcile(current, c).value)
  {
    ReconcileMeans(current, c);
    var values := Reconcile(current, c).value;
    if values.schedule.Some? {
      var instalments := values.schedule.value.instalments;
      forall i, j | 0 <= i < |instalments| && 0 <= j < |instalments[i].lineItems|
        ensures !Dangles(instalments[i].lineItems[j], values)
      {
        var l := instalments[i].lineItems[j];
        assert LineItemKept(c.schedule.value.instalments[i].lineItems[j], l, c, values.actions, values.items);
        NamedDoesNotDangle(l, values);
      }
    }
  }

  lemma NamedDoesNotDangle(l: LineItem, values: Values)
    requires NamesOneEntry(l, values.actions, values.items)
    ensures !Dangles(l, values)
  {
    if l.actionId.Some? {
      var i :| 0 <= i < |values.actions| && values.actions[i].id == l.actionId.value;
      assert EntryIds(values.actions)[i] == l.actionId.value;
    } else {
      var i :| 0 <= i < |values.items| && values.items[i].id == l.itemId.value;
      assert EntryIds(values.items)[i] == l.itemId.value;
    }
  }

  /** No id is selected twice. */
  predicate SelectsOnce(mode: Mode, wanted: seq<Option<string>>) {
    forall i, j :: 0 <= i < j < |wanted| && Selects(mode, wanted[i]) ==> wanted[i] != wanted[j]
  }

  lemma DrawnAreDistinct(mode: Mode, ns: Namespace, start: nat, wanted: seq<Option<string>>, ids: seq<string>)
    requires Drawn(mode, ns, start, wanted, ids)
    requires mode.Selecting? ==> forall id :: id in mode.existing ==> IdentityOrdinal(id, ns) < start
    ensures Distinct(ids) <==> SelectsOnce(mode, wanted)
  {
    forall i, j | 0 <= i < j < |ids|
      ensures ids[i] == ids[j] <==> Selects(mode, wanted[i]) && wanted[i] == wanted[j]
    {
    }
  }

  /*** Chains of versions ***/

  /** What building an agreement establishes: the sequence bounds every identity in use. */
  predicate Bounded(v: Agreement) {
    forall ns :: BoundedFor(v, ns)
  }

  predicate BoundedFor(v: Agreement, ns: Namespace) {
    forall i :: 0 <= i < |IdsOf(v.values, ns)| ==> IdentityOrdinal(IdsOf(v.values, ns)[i], ns) <= v.sequence.Of(ns)
  }

  /** Its ordinals are numbers the language counts exactly. */
  predicate IsSafe(v: Agreement) {
    forall ns: Namespace :: v.sequence.Of(ns) <= MAX_SAFE_INTEGER
  }

  lemma SequenceOf(values: Values, recorded: Option<Sequence>, ns: Namespace)
    ensures ResolveSequence(values, recorded).Of(ns) == ResolveOrdinal(values, recorded, ns)
  {
  }

  /** Reading a stored agreement back rebuilds the same one. */
  lemma RebuildingChangesNothing(v: Agreement)
    requires Bounded(v) && IsSafe(v)
    ensures Build(v.values, Some(v.sequence)) == v
    ensures forall ns :: NextOrdinal(v, ns) == v.sequence.Of(ns) + 1
  {
    forall ns: Namespace
      ensures ResolveOrdinal(v.values, Some(v.sequence), ns) == v.sequence.Of(ns)
    {
      assert BoundedFor(v, ns);
    }
    var s := ResolveSequence(v.values, Some(v.sequence));
    assert s.Of(Actions) == v.sequence.Of(Actions) && s.Of(Items) == v.sequence.Of(Items) &&
      s.Of(Instalments) == v.sequence.Of(Instalments);
  }

  lemma BuiltIsBounded(values: Values, recorded: Option<Sequence>)
    ensures Bounded(Build(values, recorded))
  {
    forall ns
      ensures BoundedFor(Build(values, recorded), ns)
    {
      SequenceOf(values, recorded, ns);
    }
  }

  /** On creation all ids differ; in a transition they do exactly if none is selected twice. */
  lemma CreatedIdsAreDistinct(c: Candidate, ns: Namespace)
    requires SchemaOk(None, c) && Reconcile(None, c).Ok?
    ensures Distinct(IdsOf(Reconcile(None, c).value, ns))
  {
    ReconcileMeans(None, c);
    var values := Reconcile(None, c).value;
    assert DrawnFor(None, c, values, ns);
    DrawnAreDistinct(Creating, ns, 1, WantedIds(c, ns), IdsOf(values, ns));
  }

  lemma TransitionIdsAreDistinct(v: Agreement, c: Candidate, ns: Namespace)
    requires Bounded(v) && IsSafe(v) && SchemaOk(Some(v), c) && Reconcile(Some(v), c).Ok?
    ensures Distinct(IdsOf(Reconcile(Some(v), c).value, ns)) <==> SelectsOnce(ModeOf(Some(v), ns), WantedIds(c, ns))
  {
    ReconcileMeans(Some(v), c);
    RebuildingChangesNothing(v);
    var values := Reconcile(Some(v), c).value;
    assert DrawnFor(Some(v), c, values, ns) && BoundedFor(v, ns);
    DrawnAreDistinct(ModeOf(Some(v), ns), ns, StartOf(Some(v), ns), WantedIds(c, ns), IdsOf(values, ns));
  }

  /** What a transition does to an agreement's values: keeps them, or replaces them with a reconciled candidate. */
  datatype Change = Keep | Revise(candidate: Candidate)

  function Apply(v: Agreement, change: Change): Result<Agreement, Failure> {
    match change
    case Keep => Ok(Build(v.values, Some(v.sequence)))
    case Revise(c) =>
      match Reconcile(Some(v), c)
      case Err(e) => Err(e)
      case Ok(values) => Ok(Build(values, Some(v.sequence)))
  }

  ghost predicate IsNext(v: Agreement, w: Agreement) {
    exists change: Change :: (change.Revise? ==> SchemaOk(Some(v), change.candidate)) && Apply(v, change) == Ok(w)
  }

  /** One version to the next: the sequence does not fall, and an id is either kept or above it. */
  predicate Follows(v: Agreement, w: Agreement, ns: Namespace) {
    && v.sequence.Of(ns) <= w.sequence.Of(ns)
    && forall id :: id in IdsOf(w.values, ns) ==>
      id in IdsOf(v.values, ns) || IdentityOrdinal(id, ns) > v.sequence.Of(ns)
  }

  lemma RevisedFollows(v: Agreement, c: Candidate, ns: Namespace)
    requires Bounded(v) && IsSafe(v) && SchemaOk(Some(v), c) && Reconcile(Some(v), c).Ok?
    ensures forall id :: id in IdsOf(Reconcile(Some(v), c).value, ns) ==>
      id in IdsOf(v.values, ns) || IdentityOrdinal(id, ns) > v.sequence.Of(ns)
  {
    var values := Reconcile(Some(v), c).value;
    assert DrawnFor(Some(v), c, values, ns) by {
      ReconcileMeans(Some(v), c);
    }
    assert StartOf(Some(v), ns) == v.sequence.Of(ns) + 1 by {
      RebuildingChangesNothing(v);
    }
  }

  lemma RecordIsKept(v: Agreement, values: Values, ns: Namespace)
    requires IsSafe(v)
    ensures v.sequence.Of(ns) <= Build(values, Some(v.sequence)).sequence.Of(ns)
  {
    SequenceOf(values, Some(v.sequence), ns);
  }

  lemma NextVersion(v: Agreement, w: Agreement, ns: Namespace)
    requires Bounded(v) && IsSafe(v) && IsNext(v, w)
    ensures Bounded(w) && Follows(v, w, ns)
  {
    var change: Change :| (change.Revise? ==> SchemaOk(Some(v), change.candidate)) && Apply(v, change) == Ok(w);
    assert w == Build(w.values, Some(v.sequence));
    assert Bounded(w) by {
      BuiltIsBounded(w.values, Some(v.sequence));
    }
    RecordIsKept(v, w.values, ns);
    if change.Revise? {
      RevisedFollows(v, change.candidate, ns);
    }
  }

  /*** Histories ***/

  /** Which agreement may be the version after another. */
  type Successor = (Agreement, Agreement) -> bool

  /** What one version to the next keeps. */
  ghost predicate Keeps(next: Successor) {
    forall v, w :: next(v, w) && Bounded(v) && IsSafe(v) ==> Bounded(w) && FollowsInAll(v, w)
  }

  ghost predicate FollowsInAll(v: Agreement, w: Agreement) {
    forall ns :: Follows(v, w, ns)
  }

  /** Successive versions of one agreement, from any that was once built. */
  ghost predicate IsHistoryOf(next: Successor, vs: seq<Agreement>) {
    && vs != []
    && Bounded(vs[0])
    && (forall i :: 0 <= i < |vs| ==> IsSafe(vs[i]))
    && (forall i :: 0 < i < |vs| ==> NextAt(next, vs, i))
  }

  predicate NextAt(next: Successor, vs: seq<Agreement>, i: int)
    requires 0 < i < |vs|
  {
    next(vs[i - 1], vs[i])
  }

  /** Versions that follow each other by transitions. */
  ghost function Transitions(): Successor {
    (v, w) => IsNext(v, w)
  }

  ghost predicate IsHistory(vs: seq<Agreement>) {
    IsHistoryOf(Transitions(), vs)
  }

  lemma TransitionsKeep()
    ensures Keeps(Transitions())
  {
    forall v, w | Transitions()(v, w) && Bounded(v) && IsSafe(v)
      ensures Bounded(w) && FollowsInAll(v, w)
    {
      forall ns
        ensures Bounded(w) && Follows(v, w, ns)
      {
        NextVersion(v, w, ns);
      }
      NextVersion(v, w, Actions);
    }
  }

  lemma {:induction false} HistoryFollows(next: Successor, vs: seq<Agreement>, i: nat)
    requires Keeps(next) && IsHistoryOf(next, vs) && i < |vs|
    ensures Bounded(vs[i])
    ensures i > 0 ==> FollowsInAll(vs[i - 1], vs[i])
  {
    if i > 0 {
      HistoryFollows(next, vs, i - 1);
      assert NextAt(next, vs, i);
      KeptAt(next, vs[i - 1], vs[i]);
    }
  }

  lemma KeptAt(next: Successor, v: Agreement, w: Agreement)
    requires Keeps(next) && next(v, w) && Bounded(v) && IsSafe(v)
    ensures Bounded(w) && FollowsInAll(v, w)
  {
  }

  lemma {:induction false} HistoryRises(next: Successor, vs: seq<Agreement>, i: nat, j: nat, ns: Namespace)
    requires Keeps(next) && IsHistoryOf(next, vs) && i <= j < |vs|
    ensures vs[i].sequence.Of(ns) <= vs[j].sequence.Of(ns)
    ensures forall id :: id in IdsOf(vs[i].values, ns) ==> IdentityOrdinal(id, ns) <= vs[j].sequence.Of(ns)
    decreases j
  {
    if i < j {
      HistoryRises(next, vs, i, j - 1, ns);
      HistoryFollows(next, vs, j);
      assert Follows(vs[j - 1], vs[j], ns);
    } else {
      HistoryFollows(next, vs, i);
      assert BoundedFor(vs[i], ns);
    }
  }

  /** The sequence never falls, and it bounds every ordinal any earlier version used. */
  lemma SequenceBoundsEverything(vs: seq<Agreement>, i: nat, j: nat, ns: Namespace)
    requires IsHistory(vs) && i <= j < |vs|
    ensures vs[i].sequence.Of(ns) <= vs[j].sequence.Of(ns)
    ensures forall id :: id in IdsOf(vs[i].values, ns) ==> IdentityOrdinal(id, ns) <= vs[j].sequence.Of(ns)
  {
    TransitionsKeep();
    HistoryRises(Transitions(), vs, i, j, ns);
  }

  lemma FreshInHistory(next: Successor, vs: seq<Agreement>, i: nat, j: nat, ns: Namespace, id: string)
    requires Keeps(next) && IsHistoryOf(next, vs) && i < j < |vs|
    requires id in IdsOf(vs[j].values, ns) && id !in IdsOf(vs[j - 1].values, ns)
    ensures id !in IdsOf(vs[i].values, ns)
  {
    HistoryFollows(next, vs, j);
    assert Follows(vs[j - 1], vs[j], ns);
    HistoryRises(next, vs, i, j - 1, ns);
  }

  /** An id that a version did not take over from the one before it is new to the whole history. */
  lemma FreshIdIsNew(vs: seq<Agreement>, j: nat, ns: Namespace, id: string)
    requires IsHistory(vs) && 0 < j < |vs|
    requires id in IdsOf(vs[j].values, ns) && id !in IdsOf(vs[j - 1].values, ns)
    ensures forall i :: 0 <= i < j ==> id !in IdsOf(vs[i].values, ns)
  {
    TransitionsKeep();
    forall i | 0 <= i < j
      ensures id !in IdsOf(vs[i].values, ns)
    {
      FreshInHistory(Transitions(), vs, i, j, ns, id);
    }
  }

  lemma {:induction false} RemovedFromHistory(
    next: Successor, vs: seq<Agreement>, i: nat, j: nat, k: nat, ns: Namespace, id: string)
    requires Keeps(next) && IsHistoryOf(next, vs) && i < j <= k < |vs|
    requires id in IdsOf(vs[i].values, ns) && id !in IdsOf(vs[j].values, ns)
    ensures id !in IdsOf(vs[k].values, ns)
    decreases k
  {
    if j < k {
      RemovedFromHistory(next, vs, i, j, k - 1, ns, id);
      if id in IdsOf(vs[k].values, ns) {
        FreshInHistory(next, vs, i, k, ns, id);
        assert false;
      }
    }
  }

  /** An id that has been removed never comes back. */
  lemma RemovedIdNeverReturns(vs: seq<Agreement>, i: nat, j: nat, k: nat, ns: Namespace, id: string)
    requires IsHistory(vs) && i < j <= k < |vs|
    requires id in IdsOf(vs[i].values, ns) && id !in IdsOf(vs[j].values, ns)
    ensures id !in IdsOf(vs[k].values, ns)
  {
    TransitionsKeep();
    RemovedFromHistory(Transitions(), vs, i, j, k, ns, id);
  }

  lemma PlacedNext(vs: seq<Agreement>, i: int, v: Agreement, w: Agreement)
    requires 0 < i < |vs| && vs[i - 1] == v && vs[i] == w && IsNext(v, w)
    ensures NextAt(Transitions(), vs, i)
  {
  }

  /*** Beyond safe integers ***/

  /**
   The next ordinal is beyond all the sequence records exactly if the record is a safe
   integer, so that it counts, or something still in use attains it.
   */
  lemma NextIsBeyondExactly(v: Agreement, ns: Namespace)
    requires Bounded(v)
    ensures NextOrdinal(v, ns) > v.sequence.Of(ns) <==>
      v.sequence.Of(ns) <= MAX_SAFE_INTEGER || CurrentOrdinal(IdsOf(v.values, ns), ns) == v.sequence.Of(ns)
  {
    assert BoundedFor(v, ns);
  }

  /**
   From one version to the next the sequence does not fall exactly if its record counts or the new
   values reach it.
   */
  lemma SequenceHoldsExactly(v: Agreement, values: Values, ns: Namespace)
    ensures v.sequence.Of(ns) <= Build(values, Some(v.sequence)).sequence.Of(ns) <==>
      v.sequence.Of(ns) <= MAX_SAFE_INTEGER || v.sequence.Of(ns) <= CurrentOrdinal(IdsOf(values, ns), ns)
  {
    SequenceOf(values, Some(v.sequence), ns);
  }

  /** The actions of an agreement that holds the first identity and one beyond safe integers. */
  function Oversized(n: nat): Values {
    Values([Entry(Identity(Actions, 1), ""), Entry(Identity(Actions, n), "")], [], None)
  }

  const RemoveAll := Candidate([], [], None)
  const AddOne := Candidate([CandidateEntry(None, None, "")], [], None)

  /**
   A chain that drops an unsafe record: its second version removes every action, its
   third adds one, and the identity removed comes back.
   */
  lemma UnsafeSequenceStartsOver(n: nat) returns (vs: seq<Agreement>)
    requires n > MAX_SAFE_INTEGER
    ensures |vs| == 3 && vs[0] == Build(Oversized(n), None) && Bounded(vs[0]) && vs[0].sequence.Of(Actions) == n
    ensures Apply(vs[0], Revise(RemoveAll)) == Ok(vs[1]) && Apply(vs[1], Revise(AddOne)) == Ok(vs[2])
    ensures SchemaOk(Some(vs[0]), RemoveAll) && SchemaOk(Some(vs[1]), AddOne)
    ensures vs[1].sequence.Of(Actions) == 0
    ensures
      var id := Identity(Actions, 1);
      && id in IdsOf(vs[0].values, Actions) && id !in IdsOf(vs[1].values, Actions) && id in IdsOf(vs[2].values, Actions)
  {
    var v := Build(Oversized(n), None);
    assert Bounded(v) && v.sequence == Sequence(n, 0, 0) by {
      OversizedSequence(n);
    }
    var w := RemovingAll(v);
    var x := AddingOne(w);
    vs := [v, w, x];
    FirstIsIn(v.values, Identity(Actions, 1));
    FirstIsIn(x.values, Identity(Actions, 1));
  }

  lemma FirstIsIn(values: Values, id: string)
    requires values.actions != [] && values.actions[0].id == id
    ensures id in IdsOf(values, Actions)
  {
    assert IdsOf(values, Actions)[0] == id;
  }

  lemma OversizedSequence(n: nat)
    requires n > MAX_SAFE_INTEGER
    ensures var v := Build(Oversized(n), None); Bounded(v) && v.sequence == Sequence(n, 0, 0)
  {
    var ids := IdsOf(Oversized(n), Actions);
    OrdinalRoundTrip(ids[0], Actions, 1);
    OrdinalRoundTrip(ids[1], Actions, n);
    BuiltIsBounded(Oversized(n), None);
    assert IdentityOrdinal(ids[0], Actions) == 1 && IdentityOrdinal(ids[1], Actions) == n;
    assert CurrentOrdinal(ids, Actions) == n;
  }

  lemma RemovingAll(v: Agreement) returns (w: Agreement)
    requires v.sequence.Of(Actions) > MAX_SAFE_INTEGER
    ensures Apply(v, Revise(RemoveAll)) == Ok(w)
    ensures w.values == Values([], [], None) && w.sequence.Of(Actions) == 0
  {
    w := Build(Values([], [], None), Some(v.sequence));
  }

  lemma AddingOne(w: Agreement) returns (x: Agreement)
    requires w.values == Values([], [], None) && w.sequence.Of(Actions) == 0
    ensures Apply(w, Revise(AddOne)) == Ok(x) && x.values == Values([Entry(Identity(Actions, 1), "")], [], None)
  {
    x := Build(Values([Entry(Identity(Actions, 1), "")], [], None), Some(w.sequence));
    AddingOneEntry(ModeOf(Some(w), Actions));
  }

  lemma AddingOneEntry(mode: Mode)
    ensures Materialise(mode, Actions, 1, AddOne.actions) ==
      Ok(Materialised(map[], [Entry(Identity(Actions, 1), "")], 2))
  {
    var c := AddOne.actions;
    var none := Materialised(map[], [], 1);
    assert c[..|c| - 1] == [] && Materialise(mode, Actions, 1, []) == Ok(none);
    assert Materialise(mode, Actions, 1, c) == MaterialiseOne(mode, Actions, none, c[0]);
    assert none.values + [Entry(Identity(Actions, 1), "")] == [Entry(Identity(Actions, 1), "")];
  }
}
