/**
 Identities of an agreement's actions, items and instalments: how they are
 allocated from a high-water sequence, and how payment line items refer to them.
 */
module AgreementIdentity {
  import opened Wrappers
  import opened Collections
  import opened Numerals

  const MAX_SAFE_INTEGER: nat := 9007199254740991

  /*** Identities and their ordinals ***/

  datatype Namespace = Actions | Items | Instalments
  {
    function Name(): (name: string)
      ensures name != []
    {
      match this
      case Actions => "action"
      case Items => "item"
      case Instalments => "instalment"
    }
  }

  function Identity(ns: Namespace, n: nat): (id: string)
    ensures id != []
  {
    ns.Name() + ":" + Print(DECIMAL, n)
  }

  /** The number an identity was allocated with; 0 for one of any other shape. */
  function IdentityOrdinal(id: string, ns: Namespace): nat {
    var prefix := ns.Name() + ":";
    if prefix <= id && IsPositive(DECIMAL, id[|prefix|..]) then Parse(DECIMAL, id[|prefix|..]) else 0
  }

  /** Printing and parsing undo each other: an identity has an ordinal exactly if it prints it. */
  lemma OrdinalRoundTrip(id: string, ns: Namespace, n: nat)
    requires n > 0
    ensures IdentityOrdinal(id, ns) == n <==> id == Identity(ns, n)
  {
    var prefix := ns.Name() + ":";
    if id == Identity(ns, n) {
      assert id[|prefix|..] == Print(DECIMAL, n);
      ParsePrint(DECIMAL, n);
    }
    if IdentityOrdinal(id, ns) == n {
      PrintParse(DECIMAL, id[|prefix|..]);
      assert id == prefix + id[|prefix|..];
    }
  }

  /** How identities are written. */
  lemma IdentityIsWritten(n: nat)
    ensures Identity(Actions, n) == "action:" + Print(DECIMAL, n)
    ensures Identity(Items, n) == "item:" + Print(DECIMAL, n)
    ensures Identity(Instalments, n) == "instalment:" + Print(DECIMAL, n)
    ensures Identity(Actions, 10) == "action:10"
  {
    assert Print(DECIMAL, 10) == Print(DECIMAL, 1) + [DigitOf(DECIMAL, 0)] == "10";
  }

  /*** The agreement's values ***/

  /** An action or item: its identity, and everything else it holds. */
  datatype Entry = Entry(id: string, content: string)

  datatype LineItem = LineItem(
    actionId: Option<string>,
    itemId: Option<string>,
    actionRef: Option<string>,
    itemRef: Option<string>,
    content: string)

  datatype Instalment = Instalment(id: string, lineItems: seq<LineItem>, content: string)

  datatype Schedule = Schedule(instalments: seq<Instalment>, content: string)

  datatype Values = Values(actions: seq<Entry>, items: seq<Entry>, schedule: Option<Schedule>)

  datatype Sequence = Sequence(action: nat, item: nat, instalment: nat)
  {
    function Of(ns: Namespace): nat {
      match ns
      case Actions => action
      case Items => item
      case Instalments => instalment
    }
  }

  function EntryIds(entries: seq<Entry>): (ids: seq<string>)
    ensures |ids| == |entries| && forall i :: 0 <= i < |ids| ==> ids[i] == entries[i].id
  {
    seq(|entries|, i requires 0 <= i < |entries| => entries[i].id)
  }

  function InstalmentIds(schedule: Option<Schedule>): (ids: seq<string>) {
    if schedule.None? then []
    else
      var instalments := schedule.value.instalments;
      seq(|instalments|, i requires 0 <= i < |instalments| => instalments[i].id)
  }

  function IdsOf(values: Values, ns: Namespace): seq<string> {
    match ns
    case Actions => EntryIds(values.actions)
    case Items => EntryIds(values.items)
    case Instalments => InstalmentIds(values.schedule)
  }

  /*** The sequence ***/

  /** The greatest ordinal among some identities: nothing in use exceeds it, and something attains it. */
  function CurrentOrdinal(ids: seq<string>, ns: Namespace): (n: nat)
    ensures forall i :: 0 <= i < |ids| ==> IdentityOrdinal(ids[i], ns) <= n
    ensures n == 0 || exists i :: 0 <= i < |ids| && IdentityOrdinal(ids[i], ns) == n
  {
    if ids == [] then 0
    else Max(CurrentOrdinal(ids[..|ids| - 1], ns), IdentityOrdinal(ids[|ids| - 1], ns))
  }

  /** A recorded ordinal counts only while it is a safe integer. */
  function RecordedOrdinal(recorded: Option<Sequence>, ns: Namespace): nat {
    if recorded.Some? && recorded.value.Of(ns) <= MAX_SAFE_INTEGER then recorded.value.Of(ns) else 0
  }

  function ResolveOrdinal(values: Values, recorded: Option<Sequence>, ns: Namespace): nat {
    Max(RecordedOrdinal(recorded, ns), CurrentOrdinal(IdsOf(values, ns), ns))
  }

  function ResolveSequence(values: Values, recorded: Option<Sequence>): (s: Sequence) {
    Sequence(
      ResolveOrdinal(values, recorded, Actions),
      ResolveOrdinal(values, recorded, Items),
      ResolveOrdinal(values, recorded, Instalments))
  }

  /** An agreement, as far as identities go; the sequence is resolved whenever one is built. */
  datatype Agreement = Agreement(values: Values, sequence: Sequence)

  function Build(values: Values, recorded: Option<Sequence>): Agreement {
    Agreement(values, ResolveSequence(values, recorded))
  }

  function NextOrdinal(agreement: Agreement, ns: Namespace): nat {
    ResolveOrdinal(agreement.values, Some(agreement.sequence), ns) + 1
  }

  /*** Materialising entries: what the allocation loop computes ***/

  datatype CandidateEntry = CandidateEntry(id: Option<string>, ref: Option<string>, content: string)

  datatype CandidateInstalment = CandidateInstalment(id: Option<string>, lineItems: seq<LineItem>, content: string)

  datatype CandidateSchedule = CandidateSchedule(instalments: seq<CandidateInstalment>, content: string)

  datatype Candidate = Candidate(
    actions: seq<CandidateEntry>,
    items: seq<CandidateEntry>,
    schedule: Option<CandidateSchedule>)

  datatype Failure =
    | DuplicateReference(ref: string)
    | UnknownReference(wanted: Option<string>)
    | UnknownStableIdentity(id: string)
    | UnknownPersistedReference(missing: string)
    | NoReference

  /** Creation always allocates; a transition may also select an identity that exists. */
  datatype Mode = Creating | Selecting(existing: set<string>)

  /** Whether a candidate's own id is to be kept; an empty one counts as none. */
  predicate Selects(mode: Mode, id: Option<string>) {
    mode.Selecting? && id.Some? && id.value != ""
  }

  datatype Allocated = Allocated(id: string, next: nat)

  function ResolveIdentity(mode: Mode, ns: Namespace, id: Option<string>, next: nat): Result<Allocated, Failure> {
    if !Selects(mode, id) then Ok(Allocated(Identity(ns, next), next + 1))
    else if id.value in mode.existing then Ok(Allocated(id.value, next))
    else Err(UnknownStableIdentity(id.value))
  }

  datatype Materialised = Materialised(references: map<string, string>, values: seq<Entry>, next: nat)

  function MaterialiseOne(
    mode: Mode, ns: Namespace, sofar: Materialised, entry: CandidateEntry): Result<Materialised, Failure> {
    match ResolveIdentity(mode, ns, entry.id, sofar.next)
    case Err(e) => Err(e)
    case Ok(a) =>
      if entry.ref.Some? && entry.ref.value in sofar.references then Err(DuplicateReference(entry.ref.value))
      else
        var references := if entry.ref.None? then sofar.references else sofar.references[entry.ref.value := a.id];
        Ok(Materialised(references, sofar.values + [Entry(a.id, entry.content)], a.next))
  }

  function Materialise(
    mode: Mode, ns: Namespace, start: nat, entries: seq<CandidateEntry>): Result<Materialised, Failure> {
    if entries == [] then Ok(Materialised(map[], [], start))
    else
      match Materialise(mode, ns, start, entries[..|entries| - 1])
      case Err(e) => Err(e)
      case Ok(sofar) => MaterialiseOne(mode, ns, sofar, entries[|entries| - 1])
  }

  /*** What materialising means ***/

  predicate DistinctRefs(entries: seq<CandidateEntry>) {
    forall i, j :: 0 <= i < j < |entries| && entries[i].ref.Some? ==> entries[i].ref != entries[j].ref
  }

  predicate SelectsOnlyExisting(mode: Mode, entries: seq<CandidateEntry>) {
    forall i :: 0 <= i < |entries| && Selects(mode, entries[i].id) ==> entries[i].id.value in mode.existing
  }

  /** Entry `i` is the candidate's own entry: its content, and its id if it selects one, otherwise a fresh one. */
  predicate IsEntryOf(mode: Mode, ns: Namespace, start: nat, next: nat, entry: CandidateEntry, value: Entry) {
    && value.content == entry.content
    && (if Selects(mode, entry.id) then value.id == entry.id.value && value.id in mode.existing
        else start <= IdentityOrdinal(value.id, ns) < next)
  }

  predicate EntriesKept(mode: Mode, ns: Namespace, start: nat, entries: seq<CandidateEntry>, m: Materialised) {
    && |m.values| == |entries|
    && (forall i :: 0 <= i < |entries| ==> IsEntryOf(mode, ns, start, m.next, entries[i], m.values[i]))
  }

  /** Fresh identities are numbered in the entries' own order, so no two are alike. */
  predicate FreshInOrder(mode: Mode, ns: Namespace, entries: seq<CandidateEntry>, values: seq<Entry>) {
    |values| == |entries| &&
    forall i, j :: 0 <= i < j < |entries| && !Selects(mode, entries[i].id) && !Selects(mode, entries[j].id) ==>
      IdentityOrdinal(values[i].id, ns) < IdentityOrdinal(values[j].id, ns)
  }

  /** A reference resolves to the very entry that declared it, and nothing else is a reference. */
  predicate ReferencesResolve(entries: seq<CandidateEntry>, m: Materialised) {
    && |m.values| == |entries|
    && (forall i :: 0 <= i < |entries| && entries[i].ref.Some? ==>
          entries[i].ref.value in m.references && m.references[entries[i].ref.value] == m.values[i].id)
    && (forall ref :: ref in m.references ==> exists i :: 0 <= i < |entries| && entries[i].ref == Some(ref))
  }

  lemma ResolvedIdentity(mode: Mode, ns: Namespace, id: Option<string>, next: nat)
    requires next > 0
    ensures var r := ResolveIdentity(mode, ns, id, next);
      && (r.Ok? <==> (Selects(mode, id) ==> id.value in mode.existing))
      && (r.Ok? && Selects(mode, id) ==> r.value == Allocated(id.value, next))
      && (r.Ok? && !Selects(mode, id) ==> IdentityOrdinal(r.value.id, ns) == next && r.value.next == next + 1)
      && (r.Ok? ==> r.value.id != "")
  {
    OrdinalRoundTrip(Identity(ns, next), ns, next);
  }

  predicate Materialises(mode: Mode, ns: Namespace, start: nat, entries: seq<CandidateEntry>, m: Materialised) {
    && m.next >= start
    && EntriesKept(mode, ns, start, entries, m)
    && FreshInOrder(mode, ns, entries, m.values)
    && ReferencesResolve(entries, m)
    && (forall i :: 0 <= i < |m.values| ==> m.values[i].id != "")
  }

  lemma MaterialisesOne(
    mode: Mode, ns: Namespace, start: nat, init: seq<CandidateEntry>, sofar: Materialised, entry: CandidateEntry)
    requires start > 0 && Materialises(mode, ns, start, init, sofar)
    ensures var r := MaterialiseOne(mode, ns, sofar, entry);
      && (r.Ok? ==> Materialises(mode, ns, start, init + [entry], r.value))
      && (r.Ok? <==>
            && (Selects(mode, entry.id) ==> entry.id.value in mode.existing)
            && (entry.ref.Some? ==> entry.ref.value !in sofar.references))
  {
    ResolvedIdentity(mode, ns, entry.id, sofar.next);
    var r := MaterialiseOne(mode, ns, sofar, entry);
    if r.Ok? {
      EntriesKeptOne(mode, ns, start, init, sofar, entry, r.value);
      RefsResolveOne(init, sofar, entry, r.value);
    }
  }

  lemma EntriesKeptOne(
    mode: Mode, ns: Namespace, start: nat, init: seq<CandidateEntry>, sofar: Materialised, entry: CandidateEntry,
    m: Materialised)
    requires EntriesKept(mode, ns, start, init, sofar) && FreshInOrder(mode, ns, init, sofar.values)
    requires |m.values| == |init| + 1 && m.values[..|init|] == sofar.values && start <= sofar.next <= m.next
    requires IsEntryOf(mode, ns, sofar.next, m.next, entry, m.values[|init|])
    ensures EntriesKept(mode, ns, start, init + [entry], m) && FreshInOrder(mode, ns, init + [entry], m.values)
  {
    var all := init + [entry];
    assert all[|init|] == entry;
    forall i | 0 <= i < |init|
      ensures all[i] == init[i] && m.values[i] == sofar.values[i]
      ensures IsEntryOf(mode, ns, start, sofar.next, all[i], m.values[i])
    {
      assert m.values[..|init|][i] == m.values[i];
    }
    assert all[..|init|] == init;
    FreshOneMore(mode, ns, start, sofar.next, all, m.values);
  }

  /** Fresh identities below a bound come before one at or above it. */
  lemma FreshOneMore(mode: Mode, ns: Namespace, start: nat, next: nat, all: seq<CandidateEntry>, values: seq<Entry>)
    requires |values| == |all| && all != [] && FreshInOrder(mode, ns, all[..|all| - 1], values[..|all| - 1])
    requires forall i :: 0 <= i < |all| - 1 ==> IsEntryOf(mode, ns, start, next, all[i], values[i])
    requires !Selects(mode, all[|all| - 1].id) ==> next <= IdentityOrdinal(values[|all| - 1].id, ns)
    ensures FreshInOrder(mode, ns, all, values)
  {
    var init, vs := all[..|all| - 1], values[..|all| - 1];
    forall i, j | 0 <= i < j < |all| && !Selects(mode, all[i].id) && !Selects(mode, all[j].id)
      ensures IdentityOrdinal(values[i].id, ns) < IdentityOrdinal(values[j].id, ns)
    {
      assert all[i] == init[i] && values[i] == vs[i];
      if j < |init| {
        assert all[j] == init[j] && values[j] == vs[j];
      }
    }
  }

  lemma RefsResolveOne(init: seq<CandidateEntry>, sofar: Materialised, entry: CandidateEntry, m: Materialised)
    requires ReferencesResolve(init, sofar) && |m.values| == |init| + 1 && m.values[..|init|] == sofar.values
    requires entry.ref.Some? ==> entry.ref.value !in sofar.references
    requires m.references == if entry.ref.None? then sofar.references
      else sofar.references[entry.ref.value := m.values[|init|].id]
    ensures ReferencesResolve(init + [entry], m)
  {
    var all := init + [entry];
    forall i | 0 <= i < |all| && all[i].ref.Some?
      ensures all[i].ref.value in m.references && m.references[all[i].ref.value] == m.values[i].id
    {
      assert i < |init| ==> all[i] == init[i] && m.values[i] == sofar.values[i];
    }
    forall ref | ref in m.references
      ensures exists i :: 0 <= i < |all| && all[i].ref == Some(ref)
    {
      if ref in sofar.references {
        var i :| 0 <= i < |init| && init[i].ref == Some(ref);
        assert all[i].ref == Some(ref);
      } else {
        assert all[|init|].ref == Some(ref);
      }
    }
  }

  /**
   Materialising entries: it succeeds exactly if the candidate references are distinct
   and every id selected exists; then order and content are kept and references resolve.
   */
  lemma {:induction false} MaterialiseMeans(mode: Mode, ns: Namespace, start: nat, entries: seq<CandidateEntry>)
    requires start > 0
    ensures var r := Materialise(mode, ns, start, entries);
      && (r.Ok? <==> DistinctRefs(entries) && SelectsOnlyExisting(mode, entries))
      && (r.Ok? ==> Materialises(mode, ns, start, entries, r.value))
  {
    if entries != [] {
      var init, entry := entries[..|entries| - 1], entries[|entries| - 1];
      assert entries == init + [entry];
      MaterialiseMeans(mode, ns, start, init);
      var before := Materialise(mode, ns, start, init);
      if before.Ok? {
        MaterialisesOne(mode, ns, start, init, before.value, entry);
        DistinctRefsOne(init, entry, before.value);
      }
      InitIsAsGood(mode, init, entry);
    }
  }

  lemma InitIsAsGood(mode: Mode, init: seq<CandidateEntry>, entry: CandidateEntry)
    ensures SelectsOnlyExisting(mode, init + [entry]) <==>
      SelectsOnlyExisting(mode, init) && (Selects(mode, entry.id) ==> entry.id.value in mode.existing)
    ensures DistinctRefs(init + [entry]) ==> DistinctRefs(init)
  {
    var all := init + [entry];
    assert all[|init|] == entry && forall i :: 0 <= i < |init| ==> all[i] == init[i];
  }

  lemma DistinctRefsOne(init: seq<CandidateEntry>, entry: CandidateEntry, sofar: Materialised)
    requires ReferencesResolve(init, sofar)
    ensures DistinctRefs(init + [entry]) <==>
      DistinctRefs(init) && (entry.ref.Some? ==> entry.ref.value !in sofar.references)
  {
    var all := init + [entry];
    assert all[|init|] == entry && forall i :: 0 <= i < |init| ==> all[i] == init[i];
    if entry.ref.Some? && entry.ref.value in sofar.references {
      var i :| 0 <= i < |init| && init[i].ref == Some(entry.ref.value);
      assert all[i].ref == all[|init|].ref;
    }
  }

  /** How many of some ids asked for are to be fresh. */
  function FreshAmong(mode: Mode, wanted: seq<Option<string>>): nat {
    if wanted == [] then 0
    else
      var last := |wanted| - 1;
      FreshAmong(mode, wanted[..last]) + (if Selects(mode, wanted[last]) then 0 else 1)
  }

  /** How numbers are written as identities. */
  type Namer = nat -> string

  ghost predicate Names(name: Namer, ns: Namespace) {
    forall n {:trigger Identity(ns, n)} :: name(n) == Identity(ns, n)
  }

  /** Fresh identities are numbered one after the other, from `start` on. */
  predicate IsNumbered(mode: Mode, name: Namer, start: nat, wanted: seq<Option<string>>, ids: seq<string>) {
    && |ids| == |wanted|
    && forall i :: 0 <= i < |wanted| ==> NumberedAt(mode, name, start, wanted, ids[i], i)
  }

  predicate NumberedAt(mode: Mode, name: Namer, start: nat, wanted: seq<Option<string>>, id: string, i: nat)
    requires i < |wanted|
  {
    !Selects(mode, wanted[i]) ==> id == name(start + FreshAmong(mode, wanted[..i]))
  }

  lemma NumberedOneMore(
    mode: Mode, name: Namer, start: nat, wanted: seq<Option<string>>, ids: seq<string>, w: Option<string>, id: string)
    requires IsNumbered(mode, name, start, wanted, ids)
    requires !Selects(mode, w) ==> id == name(start + FreshAmong(mode, wanted))
    ensures IsNumbered(mode, name, start, wanted + [w], ids + [id])
    ensures FreshAmong(mode, wanted + [w]) == FreshAmong(mode, wanted) + (if Selects(mode, w) then 0 else 1)
  {
    var all := wanted + [w];
    assert all[..|wanted|] == wanted;
    forall i | 0 <= i < |all|
      ensures NumberedAt(mode, name, start, all, (ids + [id])[i], i)
    {
      if i < |wanted| {
        assert NumberedAt(mode, name, start, wanted, ids[i], i);
        assert all[..i] == wanted[..i];
      }
    }
  }

  function Wanted(entries: seq<CandidateEntry>): (wanted: seq<Option<string>>)
    ensures |wanted| == |entries| && forall i :: 0 <= i < |wanted| ==> wanted[i] == entries[i].id
  {
    seq(|entries|, i requires 0 <= i < |entries| => entries[i].id)
  }

  lemma MaterialiseOneNumbers(mode: Mode, ns: Namespace, name: Namer, sofar: Materialised, entry: CandidateEntry)
    returns (id: string)
    requires Names(name, ns) && MaterialiseOne(mode, ns, sofar, entry).Ok?
    ensures
      var m := MaterialiseOne(mode, ns, sofar, entry).value;
      && EntryIds(m.values) == EntryIds(sofar.values) + [id]
      && m.next == sofar.next + (if Selects(mode, entry.id) then 0 else 1)
      && (!Selects(mode, entry.id) ==> id == name(sofar.next))
  {
    var m := MaterialiseOne(mode, ns, sofar, entry).value;
    id := m.values[|sofar.values|].id;
  }

  /** The fresh identities of entries are consecutive, and the next ordinal is the one after the last. */
  lemma {:induction false} FreshAreConsecutive(
    mode: Mode, ns: Namespace, name: Namer, start: nat, entries: seq<CandidateEntry>)
    requires Names(name, ns) && Materialise(mode, ns, start, entries).Ok?
    ensures
      var m := Materialise(mode, ns, start, entries).value;
      && IsNumbered(mode, name, start, Wanted(entries), EntryIds(m.values))
      && m.next == start + FreshAmong(mode, Wanted(entries))
    decreases |entries|
  {
    if entries == [] {
      assert Wanted(entries) == [];
    } else {
      var init, entry := entries[..|entries| - 1], entries[|entries| - 1];
      FreshAreConsecutive(mode, ns, name, start, init);
      var sofar := Materialise(mode, ns, start, init).value;
      WantedOneMore(init, entry);
      assert entries == init + [entry];
      var id := MaterialiseOneNumbers(mode, ns, name, sofar, entry);
      NumberedOneMore(mode, name, start, Wanted(init), EntryIds(sofar.values), entry.id, id);
    }
  }

  lemma WantedOneMore(init: seq<CandidateEntry>, entry: CandidateEntry)
    ensures Wanted(init + [entry]) == Wanted(init) + [entry.id]
  {
  }

  lemma {:induction false} AllAreFresh(wanted: seq<Option<string>>)
    ensures FreshAmong(Creating, wanted) == |wanted|
  {
    if wanted != [] {
      AllAreFresh(wanted[..|wanted| - 1]);
    }
  }

  /** Some two entries declare the reference. */
  predicate IsDeclaredTwice(entries: seq<CandidateEntry>, ref: string) {
    exists i, j :: 0 <= i < j < |entries| && entries[i].ref == Some(ref) && entries[j].ref == Some(ref)
  }

  predicate IsWronglySelected(mode: Mode, entries: seq<CandidateEntry>, id: string) {
    exists i :: 0 <= i < |entries| && Selects(mode, entries[i].id) && entries[i].id.value == id && id !in mode.existing
  }

  /** The failure names what is wrong: a reference declared twice, or an id selected that does not exist. */
  predicate NamesTheFault(mode: Mode, entries: seq<CandidateEntry>, e: Failure) {
    match e
    case DuplicateReference(ref) => IsDeclaredTwice(entries, ref)
    case UnknownStableIdentity(id) => IsWronglySelected(mode, entries, id)
    case _ => false
  }

  lemma FaultStays(mode: Mode, init: seq<CandidateEntry>, entry: CandidateEntry, e: Failure)
    requires NamesTheFault(mode, init, e)
    ensures NamesTheFault(mode, init + [entry], e)
  {
    var all := init + [entry];
    assert forall i :: 0 <= i < |init| ==> all[i] == init[i];
  }

  lemma LastFault(mode: Mode, ns: Namespace, init: seq<CandidateEntry>, sofar: Materialised, entry: CandidateEntry)
    requires ReferencesResolve(init, sofar) && MaterialiseOne(mode, ns, sofar, entry).Err?
    ensures NamesTheFault(mode, init + [entry], MaterialiseOne(mode, ns, sofar, entry).error)
  {
    var all := init + [entry];
    assert all[|init|] == entry && forall i :: 0 <= i < |init| ==> all[i] == init[i];
    if entry.ref.Some? && entry.ref.value in sofar.references {
      var i :| 0 <= i < |init| && init[i].ref == Some(entry.ref.value);
      assert all[i].ref == Some(entry.ref.value) && all[|init|].ref == Some(entry.ref.value);
    }
  }

  lemma {:induction false} FailureNamesTheFault(mode: Mode, ns: Namespace, start: nat, entries: seq<CandidateEntry>)
    requires start > 0 && Materialise(mode, ns, start, entries).Err?
    ensures NamesTheFault(mode, entries, Materialise(mode, ns, start, entries).error)
    decreases |entries|
  {
    var init, entry := entries[..|entries| - 1], entries[|entries| - 1];
    assert entries == init + [entry];
    var before := Materialise(mode, ns, start, init);
    if before.Err? {
      FailureNamesTheFault(mode, ns, start, init);
      FaultStays(mode, init, entry, before.error);
    } else {
      MaterialiseMeans(mode, ns, start, init);
      LastFault(mode, ns, init, before.value, entry);
    }
  }

  /*** Line items ***/

  function IdSet(values: seq<Entry>): set<string> {
    set i | 0 <= i < |values| :: values[i].id
  }

  function Referred(m: Materialised, ref: string): Result<string, Failure> {
    if ref in m.references && m.references[ref] != "" then Ok(m.references[ref]) else Err(UnknownReference(Some(ref)))
  }

  function Surviving(m: Materialised, id: string): Result<string, Failure> {
    if id in IdSet(m.values) then Ok(id) else Err(UnknownPersistedReference(id))
  }

  /**
   A candidate reference is replaced by the identity it stands for, an action's before an item's;
   a persisted one must survive.
   */
  function ResolveLineItem(
    mode: Mode, l: LineItem, actions: Materialised, items: Materialised): Result<LineItem, Failure> {
    if l.actionRef.Some? then
      match Referred(actions, l.actionRef.value)
      case Ok(id) => Ok(l.(actionRef := None, actionId := Some(id)))
      case Err(e) => Err(e)
    else if l.itemRef.Some? then
      match Referred(items, l.itemRef.value)
      case Ok(id) => Ok(l.(itemRef := None, itemId := Some(id)))
      case Err(e) => Err(e)
    else if mode.Creating? then Err(UnknownReference(None))
    else if l.actionId.Some? then
      match Surviving(actions, l.actionId.value)
      case Ok(_) => Ok(l)
      case Err(e) => Err(e)
    else if l.itemId.Some? then
      match Surviving(items, l.itemId.value)
      case Ok(_) => Ok(l)
      case Err(e) => Err(e)
    else Err(NoReference)
  }

  function ResolveLineItems(
    mode: Mode, ls: seq<LineItem>, actions: Materialised, items: Materialised): Result<seq<LineItem>, Failure> {
    if ls == [] then Ok([])
    else
      match ResolveLineItems(mode, ls[..|ls| - 1], actions, items)
      case Err(e) => Err(e)
      case Ok(sofar) =>
        match ResolveLineItem(mode, ls[|ls| - 1], actions, items)
        case Err(e) => Err(e)
        case Ok(l) => Ok(sofar + [l])
  }

  datatype Scheduled = Scheduled(instalments: seq<Instalment>, next: nat)

  function ScheduleOne(
    mode: Mode, sofar: Scheduled, c: CandidateInstalment, actions: Materialised, items: Materialised):
    Result<Scheduled, Failure>
  {
    match ResolveIdentity(mode, Instalments, c.id, sofar.next)
    case Err(e) => Err(e)
    case Ok(a) =>
      match ResolveLineItems(mode, c.lineItems, actions, items)
      case Err(e) => Err(e)
      case Ok(lineItems) => Ok(Scheduled(sofar.instalments + [Instalment(a.id, lineItems, c.content)], a.next))
  }

  function ScheduleAll(
    mode: Mode, start: nat, cs: seq<CandidateInstalment>, actions: Materialised, items: Materialised):
    Result<Scheduled, Failure>
  {
    if cs == [] then Ok(Scheduled([], start))
    else
      match ScheduleAll(mode, start, cs[..|cs| - 1], actions, items)
      case Err(e) => Err(e)
      case Ok(sofar) => ScheduleOne(mode, sofar, cs[|cs| - 1], actions, items)
  }

  /*** What line items mean ***/

  function Count(present: bool): nat {
    if present then 1 else 0
  }

  /** What the candidate schemas insist on: exactly one reference; on creation one that a candidate declares. */
  predicate OneReference(mode: Mode, l: LineItem) {
    && Count(l.actionId.Some?) + Count(l.itemId.Some?) + Count(l.actionRef.Some?) + Count(l.itemRef.Some?) == 1
    && (mode.Creating? ==> l.actionId.None? && l.itemId.None?)
  }

  /** One persisted reference, and no other, naming an entry of its own type. */
  predicate NamesOneEntry(l: LineItem, actions: seq<Entry>, items: seq<Entry>) {
    && l.actionRef.None? && l.itemRef.None?
    && (l.actionId.Some? <==> l.itemId.None?)
    && (l.actionId.Some? ==> exists i :: 0 <= i < |actions| && actions[i].id == l.actionId.value)
    && (l.itemId.Some? ==> exists i :: 0 <= i < |items| && items[i].id == l.itemId.value)
  }

  /** The line item names the entry that declared its reference, or the one it named already. */
  predicate NamesWhatItMeant(was: LineItem, l: LineItem, c: Candidate, actions: seq<Entry>, items: seq<Entry>) {
    && l.content == was.content
    && |actions| == |c.actions| && |items| == |c.items|
    && (forall i :: 0 <= i < |actions| && was.actionRef.Some? && c.actions[i].ref == was.actionRef ==>
      l.actionId == Some(actions[i].id))
    && (forall i :: 0 <= i < |items| && was.itemRef.Some? && c.items[i].ref == was.itemRef ==>
      l.itemId == Some(items[i].id))
    && (was.actionRef.None? ==> l.actionId == was.actionId)
    && (was.itemRef.None? ==> l.itemId == was.itemId)
  }

  /** A line item resolves exactly if what it refers to is declared, or survives. */
  predicate Resolvable(l: LineItem, c: Candidate, actions: seq<Entry>, items: seq<Entry>) {
    && (l.actionRef.Some? ==> exists i :: 0 <= i < |c.actions| && c.actions[i].ref == l.actionRef)
    && (l.itemRef.Some? ==> exists i :: 0 <= i < |c.items| && c.items[i].ref == l.itemRef)
    && (l.actionId.Some? ==> exists i :: 0 <= i < |actions| && actions[i].id == l.actionId.value)
    && (l.itemId.Some? ==> exists i :: 0 <= i < |items| && items[i].id == l.itemId.value)
  }

  /** The reference some candidates declare leads to the identity of the entry that declares it. */
  lemma ReferredMeans(entries: seq<CandidateEntry>, m: Materialised, ref: string)
    requires ReferencesResolve(entries, m) && forall i :: 0 <= i < |m.values| ==> m.values[i].id != ""
    ensures var r := Referred(m, ref);
      && (r.Ok? <==> exists i :: 0 <= i < |entries| && entries[i].ref == Some(ref))
      && (r.Ok? ==> exists i :: 0 <= i < |m.values| && m.values[i].id == r.value)
      && (r.Ok? ==> forall i :: 0 <= i < |entries| && entries[i].ref == Some(ref) ==> m.values[i].id == r.value)
  {
  }

  lemma LineItemMeans(mode: Mode, l: LineItem, c: Candidate, actions: Materialised, items: Materialised)
    requires OneReference(mode, l)
    requires ReferencesResolve(c.actions, actions) && forall i :: 0 <= i < |actions.values| ==>
      actions.values[i].id != ""
    requires ReferencesResolve(c.items, items) && forall i :: 0 <= i < |items.values| ==> items.values[i].id != ""
    ensures var r := ResolveLineItem(mode, l, actions, items);
      && (r.Ok? <==> Resolvable(l, c, actions.values, items.values))
      && (r.Ok? ==> NamesOneEntry(r.value, actions.values, items.values))
      && (r.Ok? ==> NamesWhatItMeant(l, r.value, c, actions.values, items.values))
  {
    if l.actionRef.Some? {
      ReferredMeans(c.actions, actions, l.actionRef.value);
    } else if l.itemRef.Some? {
      ReferredMeans(c.items, items, l.itemRef.value);
    }
  }
}
