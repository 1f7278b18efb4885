/**
 Reconciling a whole candidate with the agreement it is for: entries, payment
 schedule and line items together, as the allocation loops compute it.
 */
module AgreementReconcile {
  import opened Wrappers
  import opened AgreementIdentity

  /** Creation allocates from 1; a transition selects from, and allocates after, the agreement it is of. */
  function ModeOf(current: Option<Agreement>, ns: Namespace): Mode {
    match current
    case None => Creating
    case Some(agreement) => Selecting(set id | id in IdsOf(agreement.values, ns))
  }

  function StartOf(current: Option<Agreement>, ns: Namespace): (n: nat)
    ensures n > 0
  {
    match current
    case None => 1
    case Some(agreement) => NextOrdinal(agreement, ns)
  }

  function ReconcileSchedule(
    current: Option<Agreement>, c: Option<CandidateSchedule>, actions: Materialised, items: Materialised):
    Result<Option<Schedule>, Failure>
  {
    if c.None? then Ok(None)
    else
      match ScheduleAll(ModeOf(current, Instalments), StartOf(current, Instalments), c.value.instalments, actions,
        items)
      case Err(e) => Err(e)
      case Ok(s) => Ok(Some(Schedule(s.instalments, c.value.content)))
  }

  function Reconcile(current: Option<Agreement>, c: Candidate): Result<Values, Failure> {
    match Materialise(ModeOf(current, Actions), Actions, StartOf(current, Actions), c.actions)
    case Err(e) => Err(e)
    case Ok(actions) =>
      match Materialise(ModeOf(current, Items), Items, StartOf(current, Items), c.items)
      case Err(e) => Err(e)
      case Ok(items) =>
        match ReconcileSchedule(current, c.schedule, actions, items)
        case Err(e) => Err(e)
        case Ok(schedule) => Ok(Values(actions.values, items.values, schedule))
  }

  /*** The loops ***/

  /** The allocation a mapping of entries shares: its next ordinal moves on with every identity drawn. */
  class Allocation {
    const mode: Mode
    const ns: Namespace
    var nextOrdinal: nat

    constructor (mode: Mode, ns: Namespace, start: nat)
      ensures this.mode == mode && this.ns == ns && nextOrdinal == start
    {
      this.mode, this.ns, nextOrdinal := mode, ns, start;
    }

    method AllocateIdentity() returns (id: string)
      modifies this
      ensures id == Identity(ns, old(nextOrdinal)) && nextOrdinal == old(nextOrdinal) + 1
    {
      id := Identity(ns, nextOrdinal);
      nextOrdinal := nextOrdinal + 1;
    }

    method Resolve(candidateId: Option<string>) returns (r: Result<string, Failure>)
      modifies this
      ensures match ResolveIdentity(mode, ns, candidateId, old(nextOrdinal))
        case Ok(a) => r == Ok(a.id) && nextOrdinal == a.next
        case Err(e) => r == Err(e) && nextOrdinal == old(nextOrdinal)
    {
      if Selects(mode, candidateId) {
        r := if candidateId.value in mode.existing then Ok(candidateId.value)
          else Err(UnknownStableIdentity(candidateId.value));
      } else {
        var id := AllocateIdentity();
        r := Ok(id);
      }
    }
  }

  method MaterialiseEntries(
    entries: seq<CandidateEntry>, allocation: Allocation)
    returns (r: Result<Materialised, Failure>)
    modifies allocation
    ensures r == Materialise(allocation.mode, allocation.ns, old(allocation.nextOrdinal), entries)
  {
    var references: map<string, string> := map[];
    var values: seq<Entry> := [];
    ghost var start := allocation.nextOrdinal;
    var i := 0;
    while i < |entries|
      invariant 0 <= i <= |entries|
      invariant Materialise(allocation.mode, allocation.ns, start, entries[..i]) ==
        Ok(Materialised(references, values, allocation.nextOrdinal))
    {
      var entry := entries[i];
      assert entries[..i + 1][..i] == entries[..i];
      MaterialiseStops(allocation.mode, allocation.ns, start, entries, i + 1);
      var id := allocation.Resolve(entry.id);
      if id.Err? {
        return Err(id.error);
      }
      if entry.ref.Some? {
        if entry.ref.value in references {
          return Err(DuplicateReference(entry.ref.value));
        }
        references := references[entry.ref.value := id.value];
      }
      values := values + [Entry(id.value, entry.content)];
      i := i + 1;
    }
    assert entries[..i] == entries;
    r := Ok(Materialised(references, values, allocation.nextOrdinal));
  }

  /** Once a prefix fails, the whole fails in the same way. */
  lemma {:induction false} MaterialiseStops(mode: Mode, ns: Namespace, start: nat, entries: seq<CandidateEntry>, k: nat)
    requires k <= |entries|
    ensures Materialise(mode, ns, start, entries[..k]).Err? ==>
      Materialise(mode, ns, start, entries) == Materialise(mode, ns, start, entries[..k])
  {
    if k == |entries| {
      assert entries[..k] == entries;
    } else {
      var init := entries[..|entries| - 1];
      assert init[..k] == entries[..k];
      MaterialiseStops(mode, ns, start, init, k);
    }
  }

  method MaterialiseInstalments(
    cs: seq<CandidateInstalment>, allocation: Allocation, actions: Materialised, items: Materialised)
    returns (r: Result<seq<Instalment>, Failure>)
    requires allocation.ns == Instalments
    modifies allocation
    ensures match ScheduleAll(allocation.mode, old(allocation.nextOrdinal), cs, actions, items)
      case Ok(s) => r == Ok(s.instalments)
      case Err(e) => r == Err(e)
  {
    var instalments: seq<Instalment> := [];
    ghost var start := allocation.nextOrdinal;
    var i := 0;
    while i < |cs|
      invariant 0 <= i <= |cs|
      invariant ScheduleAll(allocation.mode, start, cs[..i], actions, items) ==
        Ok(Scheduled(instalments, allocation.nextOrdinal))
    {
      assert cs[..i + 1][..i] == cs[..i];
      ScheduleStops(allocation.mode, start, cs, actions, items, i + 1);
      var id := allocation.Resolve(cs[i].id);
      if id.Err? {
        return Err(id.error);
      }
      var lineItems := ResolveLineItems(allocation.mode, cs[i].lineItems, actions, items);
      if lineItems.Err? {
        return Err(lineItems.error);
      }
      instalments := instalments + [Instalment(id.value, lineItems.value, cs[i].content)];
      i := i + 1;
    }
    assert cs[..i] == cs;
    r := Ok(instalments);
  }

  lemma {:induction false} ScheduleStops(
    mode: Mode, start: nat, cs: seq<CandidateInstalment>, actions: Materialised, items: Materialised, k: nat)
    requires k <= |cs|
    ensures ScheduleAll(mode, start, cs[..k], actions, items).Err? ==>
      ScheduleAll(mode, start, cs, actions, items) == ScheduleAll(mode, start, cs[..k], actions, items)
  {
    if k == |cs| {
      assert cs[..k] == cs;
    } else {
      var init := cs[..|cs| - 1];
      assert init[..k] == cs[..k];
      ScheduleStops(mode, start, init, actions, items, k);
    }
  }

  /** Creation when there is no current agreement, reconciliation when there is. */
  method ReconcileIdentities(current: Option<Agreement>, c: Candidate) returns (r: Result<Values, Failure>)
    ensures r == Reconcile(current, c)
  {
    var forActions := new Allocation(ModeOf(current, Actions), Actions, StartOf(current, Actions));
    var actions := MaterialiseEntries(c.actions, forActions);
    if actions.Err? {
      return Err(actions.error);
    }
    var forItems := new Allocation(ModeOf(current, Items), Items, StartOf(current, Items));
    var items := MaterialiseEntries(c.items, forItems);
    if items.Err? {
      return Err(items.error);
    }
    if c.schedule.None? {
      return Ok(Values(actions.value.values, items.value.values, None));
    }
    var forInstalments := new Allocation(ModeOf(current, Instalments), Instalments, StartOf(current, Instalments));
    var instalments := MaterialiseInstalments(c.schedule.value.instalments, forInstalments, actions.value, items.value);
    r := match instalments
      case Err(e) => Err(e)
      case Ok(all) => Ok(Values(actions.value.values, items.value.values,
        Some(Schedule(all, c.schedule.value.content))));
  }

  /*** What a schedule means ***/

  predicate AllResolvable(ls: seq<LineItem>, c: Candidate, actions: seq<Entry>, items: seq<Entry>) {
    forall i :: 0 <= i < |ls| ==> Resolvable(ls[i], c, actions, items)
  }

  predicate AllOneReference(mode: Mode, ls: seq<LineItem>) {
    forall i :: 0 <= i < |ls| ==> OneReference(mode, ls[i])
  }

  /** Line items in their own order, each naming one entry: the one it meant. */
  predicate LineItemsKept(was: seq<LineItem>, ls: seq<LineItem>, c: Candidate, actions: seq<Entry>, items: seq<Entry>) {
    && |ls| == |was|
    && (forall i :: 0 <= i < |ls| ==> LineItemKept(was[i], ls[i], c, actions, items))
  }

  predicate LineItemKept(was: LineItem, l: LineItem, c: Candidate, actions: seq<Entry>, items: seq<Entry>) {
    NamesOneEntry(l, actions, items) && NamesWhatItMeant(was, l, c, actions, items)
  }

  lemma LineItemsKeptOne(
    init: seq<LineItem>, sofar: seq<LineItem>, was: LineItem, l: LineItem, c: Candidate, actions: seq<Entry>,
    items: seq<Entry>)
    requires LineItemsKept(init, sofar, c, actions, items) && LineItemKept(was, l, c, actions, items)
    ensures LineItemsKept(init + [was], sofar + [l], c, actions, items)
  {
    var before, after := init + [was], sofar + [l];
    assert before[|init|] == was && after[|init|] == l;
    assert forall i :: 0 <= i < |init| ==> before[i] == init[i] && after[i] == sofar[i];
  }

  lemma AllResolvableOne(init: seq<LineItem>, was: LineItem, c: Candidate, actions: seq<Entry>, items: seq<Entry>)
    ensures AllResolvable(init + [was], c, actions, items) <==>
      AllResolvable(init, c, actions, items) && Resolvable(was, c, actions, items)
  {
    var all := init + [was];
    assert all[|init|] == was && forall i :: 0 <= i < |init| ==> all[i] == init[i];
  }

  predicate RefsOk(entries: seq<CandidateEntry>, m: Materialised) {
    ReferencesResolve(entries, m) && forall i :: 0 <= i < |m.values| ==> m.values[i].id != ""
  }

  lemma {:induction false} LineItemsMean(
    mode: Mode, ls: seq<LineItem>, c: Candidate, actions: Materialised, items: Materialised)
    requires AllOneReference(mode, ls) && RefsOk(c.actions, actions) && RefsOk(c.items, items)
    ensures var r := ResolveLineItems(mode, ls, actions, items);
      && (r.Ok? <==> AllResolvable(ls, c, actions.values, items.values))
      && (r.Ok? ==> LineItemsKept(ls, r.value, c, actions.values, items.values))
  {
    if ls != [] {
      var init, last := ls[..|ls| - 1], ls[|ls| - 1];
      assert ls == init + [last];
      LineItemsMean(mode, init, c, actions, items);
      AllResolvableOne(init, last, c, actions.values, items.values);
      var one := ResolveLineItem(mode, last, actions, items);
      assert && (one.Ok? <==> Resolvable(last, c, actions.values, items.values))
             && (one.Ok? ==> LineItemKept(last, one.value, c, actions.values, items.values)) by {
        LineItemMeans(mode, last, c, actions, items);
      }
      var sofar := ResolveLineItems(mode, init, actions, items);
      if sofar.Ok? && one.Ok? {
        LineItemsKeptOne(init, sofar.value, last, one.value, c, actions.values, items.values);
      }
    }
  }

  /** Instalment for instalment: content kept, its id selected or fresh, its line items kept. */
  predicate InstalmentKept(
    mode: Mode, start: nat, next: nat, was: CandidateInstalment, now: Instalment, c: Candidate,
    actions: seq<Entry>, items: seq<Entry>) {
    && IsEntryOf(mode, Instalments, start, next, CandidateEntry(was.id, None, was.content), Entry(now.id, now.content))
    && LineItemsKept(was.lineItems, now.lineItems, c, actions, items)
  }

  predicate InstalmentsKept(
    mode: Mode, start: nat, cs: seq<CandidateInstalment>, s: Scheduled, c: Candidate, actions: seq<Entry>,
    items: seq<Entry>) {
    && start <= s.next
    && |s.instalments| == |cs|
    && (forall i :: 0 <= i < |cs| ==> InstalmentKept(mode, start, s.next, cs[i], s.instalments[i], c, actions, items))
    && (forall i, j :: 0 <= i < j < |cs| && !Selects(mode, cs[i].id) && !Selects(mode, cs[j].id) ==>
          IdentityOrdinal(s.instalments[i].id, Instalments) < IdentityOrdinal(s.instalments[j].id, Instalments))
  }

  /** When one instalment can be made. */
  predicate InstalmentOk(mode: Mode, was: CandidateInstalment, c: Candidate, actions: seq<Entry>, items: seq<Entry>) {
    && (Selects(mode, was.id) ==> was.id.value in mode.existing)
    && AllResolvable(was.lineItems, c, actions, items)
  }

  predicate AllInstalmentsOk(
    mode: Mode, cs: seq<CandidateInstalment>, c: Candidate, actions: seq<Entry>, items: seq<Entry>) {
    forall i :: 0 <= i < |cs| ==> InstalmentOk(mode, cs[i], c, actions, items)
  }

  lemma AllInstalmentsOkOne(
    mode: Mode, init: seq<CandidateInstalment>, one: CandidateInstalment, c: Candidate, actions: seq<Entry>,
    items: seq<Entry>)
    ensures AllInstalmentsOk(mode, init + [one], c, actions, items) <==>
      AllInstalmentsOk(mode, init, c, actions, items) && InstalmentOk(mode, one, c, actions, items)
  {
    var all := init + [one];
    assert all[|init|] == one && forall i :: 0 <= i < |init| ==> all[i] == init[i];
  }

  lemma ScheduleOneMeans(
    mode: Mode, start: nat, init: seq<CandidateInstalment>, sofar: Scheduled, one: CandidateInstalment,
    c: Candidate, actions: Materialised, items: Materialised)
    requires start > 0 && RefsOk(c.actions, actions) && RefsOk(c.items, items) && AllOneReference(mode, one.lineItems)
    requires InstalmentsKept(mode, start, init, sofar, c, actions.values, items.values)
    ensures var r := ScheduleOne(mode, sofar, one, actions, items);
      && (r.Ok? <==> InstalmentOk(mode, one, c, actions.values, items.values))
      && (r.Ok? ==> InstalmentsKept(mode, start, init + [one], r.value, c, actions.values, items.values))
  {
    ResolvedIdentity(mode, Instalments, one.id, sofar.next);
    LineItemsMean(mode, one.lineItems, c, actions, items);
    var r := ScheduleOne(mode, sofar, one, actions, items);
    if r.Ok? {
      var all := init + [one];
      assert InstalmentKept(mode, start, r.value.next, one, r.value.instalments[|init|], c, actions.values,
        items.values);
      InstalmentsKeptOne(mode, start, init, sofar, one, r.value, c, actions.values, items.values);
    }
  }

  lemma InstalmentsKeptOne(
    mode: Mode, start: nat, init: seq<CandidateInstalment>, sofar: Scheduled, one: CandidateInstalment,
    s: Scheduled, c: Candidate, actions: seq<Entry>, items: seq<Entry>)
    requires InstalmentsKept(mode, start, init, sofar, c, actions, items)
    requires |s.instalments| == |init| + 1 && s.instalments[..|init|] == sofar.instalments && sofar.next <= s.next
    requires InstalmentKept(mode, start, s.next, one, s.instalments[|init|], c, actions, items)
    requires !Selects(mode, one.id) ==> sofar.next <= IdentityOrdinal(s.instalments[|init|].id, Instalments)
    ensures InstalmentsKept(mode, start, init + [one], s, c, actions, items)
  {
    var all := init + [one];
    forall i | 0 <= i < |init|
      ensures all[i] == init[i] && s.instalments[i] == sofar.instalments[i]
      ensures InstalmentKept(mode, start, sofar.next, all[i], s.instalments[i], c, actions, items)
      ensures InstalmentKept(mode, start, s.next, all[i], s.instalments[i], c, actions, items)
    {
      assert s.instalments[..|init|][i] == s.instalments[i];
    }
    assert all[|init|] == one;
  }

  lemma {:induction false} ScheduleMeans(
    mode: Mode, start: nat, cs: seq<CandidateInstalment>, c: Candidate, actions: Materialised,
    items: Materialised)
    requires start > 0 && RefsOk(c.actions, actions) && RefsOk(c.items, items)
    requires forall i :: 0 <= i < |cs| ==> AllOneReference(mode, cs[i].lineItems)
    ensures var r := ScheduleAll(mode, start, cs, actions, items);
      && (r.Ok? <==> AllInstalmentsOk(mode, cs, c, actions.values, items.values))
      && (r.Ok? ==> InstalmentsKept(mode, start, cs, r.value, c, actions.values, items.values))
  {
    if cs != [] {
      var init, one := cs[..|cs| - 1], cs[|cs| - 1];
      assert forall i :: 0 <= i < |init| ==> init[i] == cs[i];
      assert cs == init + [one];
      ScheduleMeans(mode, start, init, c, actions, items);
      AllInstalmentsOkOne(mode, init, one, c, actions.values, items.values);
      var before := ScheduleAll(mode, start, init, actions, items);
      if before.Ok? {
        ScheduleOneMeans(mode, start, init, before.value, one, c, actions, items);
      }
    }
  }

  /*** Numbering ***/

  function WantedInstalments(cs: seq<CandidateInstalment>): (wanted: seq<Option<string>>)
    ensures |wanted| == |cs| && forall i :: 0 <= i < |wanted| ==> wanted[i] == cs[i].id
  {
    seq(|cs|, i requires 0 <= i < |cs| => cs[i].id)
  }

  function GivenInstalments(instalments: seq<Instalment>): (ids: seq<string>)
    ensures |ids| == |instalments| && forall i :: 0 <= i < |ids| ==> ids[i] == instalments[i].id
  {
    seq(|instalments|, i requires 0 <= i < |instalments| => instalments[i].id)
  }

  lemma ScheduleOneNumbers(
    mode: Mode, name: Namer, sofar: Scheduled, c: CandidateInstalment, actions: Materialised, items: Materialised)
    returns (id: string)
    requires Names(name, Instalments) && ScheduleOne(mode, sofar, c, actions, items).Ok?
    ensures
      var s := ScheduleOne(mode, sofar, c, actions, items).value;
      && GivenInstalments(s.instalments) == GivenInstalments(sofar.instalments) + [id]
      && s.next == sofar.next + (if Selects(mode, c.id) then 0 else 1)
      && (!Selects(mode, c.id) ==> id == name(sofar.next))
  {
    var s := ScheduleOne(mode, sofar, c, actions, items).value;
    id := s.instalments[|sofar.instalments|].id;
  }

  /** Fresh instalments too are numbered one after the other. */
  lemma {:induction false} FreshInstalmentsAreConsecutive(
    mode: Mode, name: Namer, start: nat, cs: seq<CandidateInstalment>, actions: Materialised, items: Materialised)
    requires Names(name, Instalments) && ScheduleAll(mode, start, cs, actions, items).Ok?
    ensures
      var s := ScheduleAll(mode, start, cs, actions, items).value;
      && IsNumbered(mode, name, start, WantedInstalments(cs), GivenInstalments(s.instalments))
      && s.next == start + FreshAmong(mode, WantedInstalments(cs))
    decreases |cs|
  {
    if cs == [] {
      assert WantedInstalments(cs) == [];
    } else {
      var init, c := cs[..|cs| - 1], cs[|cs| - 1];
      FreshInstalmentsAreConsecutive(mode, name, start, init, actions, items);
      var sofar := ScheduleAll(mode, start, init, actions, items).value;
      var id := ScheduleOneNumbers(mode, name, sofar, c, actions, items);
      NumberedOneMore(mode, name, start, WantedInstalments(init), GivenInstalments(sofar.instalments), c.id, id);
      assert WantedInstalments(cs) == WantedInstalments(init) + [c.id];
    }
  }

  function Written(ns: Namespace): Namer {
    (n: nat) => Identity(ns, n)
  }

  /** Ids numbered from one, in order. */
  predicate CountFromOne(ns: Namespace, ids: seq<string>) {
    forall i :: 0 <= i < |ids| ==> ids[i] == Identity(ns, i + 1)
  }

  lemma NumberedFromOne(ns: Namespace, wanted: seq<Option<string>>, ids: seq<string>)
    requires IsNumbered(Creating, Written(ns), 1, wanted, ids)
    ensures CountFromOne(ns, ids)
  {
    forall i | 0 <= i < |ids|
      ensures ids[i] == Identity(ns, i + 1)
    {
      assert NumberedAt(Creating, Written(ns), 1, wanted, ids[i], i);
      AllAreFresh(wanted[..i]);
    }
  }

  /** Creation numbers the entries of each type, and the instalments, from one. */
  lemma CreationCountsFromOne(c: Candidate)
    requires Reconcile(None, c).Ok?
    ensures
      var values := Reconcile(None, c).value;
      && CountFromOne(Actions, EntryIds(values.actions)) && |values.actions| == |c.actions|
      && CountFromOne(Items, EntryIds(values.items)) && |values.items| == |c.items|
      && CountFromOne(Instalments, InstalmentIds(values.schedule))
  {
    var actions := Materialise(Creating, Actions, 1, c.actions).value;
    var items := Materialise(Creating, Items, 1, c.items).value;
    FreshAreConsecutive(Creating, Actions, Written(Actions), 1, c.actions);
    NumberedFromOne(Actions, Wanted(c.actions), EntryIds(actions.values));
    FreshAreConsecutive(Creating, Items, Written(Items), 1, c.items);
    NumberedFromOne(Items, Wanted(c.items), EntryIds(items.values));
    if c.schedule.Some? {
      InstalmentsCountFromOne(c.schedule.value.instalments, actions, items);
    }
  }

  lemma InstalmentsCountFromOne(cs: seq<CandidateInstalment>, actions: Materialised, items: Materialised)
    requires ScheduleAll(Creating, 1, cs, actions, items).Ok?
    ensures CountFromOne(Instalments, GivenInstalments(ScheduleAll(Creating, 1, cs, actions, items).value.instalments))
  {
    var s := ScheduleAll(Creating, 1, cs, actions, items).value;
    FreshInstalmentsAreConsecutive(Creating, Written(Instalments), 1, cs, actions, items);
    NumberedFromOne(Instalments, WantedInstalments(cs), GivenInstalments(s.instalments));
  }
}
