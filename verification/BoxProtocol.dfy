/**
 The delivery protocol of one box: any number of pollers, sweeps and operators
 acting on shared rows, each database update one atomic step, in any order.

 A poller claims a row under a token, keeps an in-memory copy of it, dispatches
 that copy and writes it back whole, fenced by the token. The log is what an
 observer of the run would have written down; no step reads it, and only the
 freshness of claim tokens is stated over it.
 */
module BoxProtocol {
  import opened Wrappers
  import opened BoxRows

  /** One place in a poller's list of claimed events. */
  type Handle = nat

  /** Claimed and not yet dispatched; dispatched; dispatched and its completing write threw. */
  datatype Stage = Waiting | Sent | Marked(at: Time)

  /** A poller's copy of a row it claimed, read at the instant of the claim. */
  datatype Work = Work(token: Token, id: Id, copy: Document, read: Time, stage: Stage)

  /** An edit whose row has been read and whose fenced write is still to come. */
  datatype PendingEdit = PendingEdit(id: Id, revision: nat, event: Payload, original: Option<Payload>)

  /** A write that came back, one that never reached the database, and one that did but threw. */
  datatype Outcome = Acknowledged | Lost | Unconfirmed

  /** What happened to a row since it was inserted; `since`, `failures` and `recorded` since its last redrive. */
  datatype Log = Log(
    inserted: Payload,
    claims: set<Token>,
    since: set<Token>,
    delivered: set<Token>,
    failures: nat, recorded: seq<Attempt>,
    edits: nat, purges: nat, redrives: nat)
  {
    function Operations(): nat { edits + purges + redrives }

    function Claim(token: Token): Log {
      this.(claims := claims + {token}, since := since + {token})
    }

    function Fail(error: Option<Attempt>): Log {
      this.(failures := failures + 1, recorded := Recorded(recorded, error))
    }

    function Redrive(): Log {
      this.(since := {}, failures := 0, recorded := [], redrives := redrives + 1)
    }
  }

  datatype State = State(
    rows: map<Id, Row>,
    work: map<Handle, Work>,
    pending: map<nat, PendingEdit>,
    log: map<Id, Log>)
  {
    /** Every row is logged. */
    predicate Logged() { rows.Keys <= log.Keys }
  }

  datatype Step =
    | Insert(id: Id, event: Payload, segregationRef: string, now: Time)
    | ClaimRow(handle: Handle, token: Token, id: Id, now: Time)
    | Dispatch(handle: Handle)
    | WriteComplete(handle: Handle, now: Time, outcome: Outcome)
    | WriteFailed(handle: Handle, failure: Failure, now: Time, outcome: Outcome)
    | Crash(handle: Handle)
    | Expire(id: Id, now: Time)
    | Bury(id: Id)
    | Resubmit(id: Id)
    | Republish(id: Id)
    | RedriveRow(id: Id, now: Time)
    | PurgeRow(id: Id, now: Time)
    | ReadForEdit(editor: nat, id: Id, revision: nat, event: Payload)
    | WriteEdit(editor: nat, now: Time)
    | Ttl(id: Id, now: Time)

  const Init := State(map[], map[], map[], map[])

  /*** The steps ***/

  function SetRow(s: State, id: Id, row: Row): State {
    s.(rows := s.rows[id := row])
  }

  function SetBoth(s: State, id: Id, row: Row, log: Log): State {
    s.(rows := s.rows[id := row], log := s.log[id := log])
  }

  function ApplyInsert(cfg: Config, s: State, id: Id, event: Payload, segregationRef: string, now: Time): State {
    if id in s.log then s
    else SetBoth(s, id, NewRow(cfg, event, segregationRef, now), Log(event, {}, {}, {}, 0, [], 0, 0, 0))
  }

  function ApplyClaim(cfg: Config, s: State, handle: Handle, token: Token, id: Id, now: Time): State
    requires s.Logged()
  {
    if handle !in s.work && id in s.rows && Claimable(cfg, s.rows[id]) then
      var row := Claim(cfg, s.rows[id], token, now);
      SetBoth(s, id, row, s.log[id].Claim(token))
        .(work := s.work[handle := Work(token, id, FromDocument(cfg, row.doc, now), now, Waiting)])
    else s
  }

  function ApplyDispatch(s: State, handle: Handle): State {
    if handle in s.work && s.work[handle].stage.Waiting? && s.work[handle].id in s.log then
      var w := s.work[handle];
      s.(
        log := s.log[w.id := s.log[w.id].(delivered := s.log[w.id].delivered + {w.token})],
        work := s.work[handle := w.(stage := Sent)])
    else s
  }

  predicate FenceHolds(s: State, token: Token, id: Id) {
    id in s.rows && s.rows[id].doc.claimedBy == Some(token)
  }

  /** What a write of `copy` does to the rows: nothing if it is lost or the fence is down. */
  function Written(rows: map<Id, Row>, id: Id, copy: Document, token: Token, outcome: Outcome): map<Id, Row> {
    if id in rows && !outcome.Lost? then rows[id := Update(rows[id], copy, token)] else rows
  }

  predicate CanWriteComplete(s: State, handle: Handle) {
    handle in s.work && s.work[handle].stage.Sent?
  }

  /** A completing write that throws leaves the copy marked, for the failing write that follows. */
  function ApplyComplete(cfg: Config, s: State, handle: Handle, now: Time, outcome: Outcome): State {
    if CanWriteComplete(s, handle) then
      var w := s.work[handle];
      var copy := MarkComplete(cfg, w.copy, now);
      s.(
        rows := Written(s.rows, w.id, copy, w.token, outcome),
        work := if outcome.Acknowledged? then s.work - {handle}
                else s.work[handle := w.(copy := copy, stage := Marked(now))])
    else s
  }

  predicate CanWriteFailed(s: State, handle: Handle) {
    handle in s.work && !s.work[handle].stage.Waiting?
  }

  predicate FailureLands(s: State, handle: Handle, outcome: Outcome) {
    CanWriteFailed(s, handle) && FenceHolds(s, s.work[handle].token, s.work[handle].id) && !outcome.Lost?
  }

  function ApplyFailed(cfg: Config, s: State, handle: Handle, failure: Failure, now: Time, outcome: Outcome): State
    requires s.Logged()
  {
    if CanWriteFailed(s, handle) then
      var w := s.work[handle];
      s.(
        rows := Written(s.rows, w.id, MarkFailed(cfg, w.copy, failure, now), w.token, outcome),
        work := s.work - {handle},
        log := if FailureLands(s, handle, outcome) then s.log[w.id := s.log[w.id].Fail(failure.error)] else s.log)
    else s
  }

  function ApplyExpire(s: State, id: Id, now: Time): State
    requires s.Logged()
  {
    if id in s.rows && IsExpired(s.rows[id], now) then
      SetBoth(s, id, SweepExpired(s.rows[id], now), s.log[id].Fail(Some(ClaimExpired(now))))
    else s
  }

  function ApplyRedrive(s: State, id: Id, now: Time): State
    requires s.Logged()
  {
    if id in s.rows && IsRedrivable(s.rows[id].doc.status) then
      SetBoth(s, id, Redrive(s.rows[id], now), s.log[id].Redrive())
    else s
  }

  function ApplyPurge(cfg: Config, s: State, id: Id, now: Time): State
    requires s.Logged()
  {
    if id in s.rows && s.rows[id].doc.status == DeadLetter then
      SetBoth(s, id, Purge(cfg, s.rows[id], now), s.log[id].(purges := s.log[id].purges + 1))
    else s
  }

  /** The use case reads first: an editable row gives the original to keep if nothing edited it yet. */
  function ApplyReadForEdit(s: State, editor: nat, id: Id, revision: nat, event: Payload): State {
    if id in s.rows && IsRedrivable(s.rows[id].doc.status) && RevisionOf(s.rows[id]) == revision then
      var row := s.rows[id];
      s.(pending := s.pending[editor :=
        PendingEdit(id, revision, event, if row.lastEdit.Some? then None else Some(row.doc.event))])
    else s
  }

  predicate EditLands(s: State, editor: nat) {
    editor in s.pending && s.pending[editor].id in s.rows &&
    EditFence(s.rows[s.pending[editor].id], s.pending[editor].revision)
  }

  function ApplyWriteEdit(cfg: Config, s: State, editor: nat, now: Time): State
    requires s.Logged()
  {
    var s1 := s.(pending := s.pending - {editor});
    if EditLands(s, editor) then
      var e := s.pending[editor];
      SetBoth(s1, e.id, Edit(cfg, s.rows[e.id], e.revision, e.event, e.original, now),
              s.log[e.id].(edits := s.log[e.id].edits + 1))
    else s1
  }

  function Apply(cfg: Config, s: State, step: Step): (s1: State)
    requires s.Logged()
    ensures s1.Logged() && s.log.Keys <= s1.log.Keys
  {
    match step
    case Insert(id, event, segregationRef, now) => ApplyInsert(cfg, s, id, event, segregationRef, now)
    case ClaimRow(handle, token, id, now) => ApplyClaim(cfg, s, handle, token, id, now)
    case Dispatch(handle) => ApplyDispatch(s, handle)
    case WriteComplete(handle, now, outcome) => ApplyComplete(cfg, s, handle, now, outcome)
    case WriteFailed(handle, failure, now, outcome) => ApplyFailed(cfg, s, handle, failure, now, outcome)
    case Crash(handle) => s.(work := s.work - {handle})
    case Expire(id, now) => ApplyExpire(s, id, now)
    case Bury(id) => if id in s.rows then SetRow(s, id, SweepDead(cfg, s.rows[id])) else s
    case Resubmit(id) => if id in s.rows then SetRow(s, id, SweepFailed(s.rows[id])) else s
    case Republish(id) => if id in s.rows then SetRow(s, id, SweepResubmitted(s.rows[id])) else s
    case RedriveRow(id, now) => ApplyRedrive(s, id, now)
    case PurgeRow(id, now) => ApplyPurge(cfg, s, id, now)
    case ReadForEdit(editor, id, revision, event) => ApplyReadForEdit(s, editor, id, revision, event)
    case WriteEdit(editor, now) => ApplyWriteEdit(cfg, s, editor, now)
    case Ttl(id, now) => if id in s.rows && TtlDeletes(s.rows[id], now) then s.(rows := s.rows - {id}) else s
  }

  /** The hypothesis on tokens: none claims a row it has claimed before. */
  predicate Fresh(s: State, step: Step) {
    step.ClaimRow? && step.id in s.log ==> step.token !in s.log[step.id].claims
  }

  /*** The invariant ***/

  predicate IsKept(status: Status) { status == Completed || status == Purged }

  predicate RowOk(cfg: Config, row: Row, log: Log) {
    var doc := row.doc;
    && (doc.claimedBy.Some? <==> doc.status == Processing)
    && (doc.claimExpiresAt.Some? <==> doc.status == Processing)
    && (doc.claimedBy.Some? ==> doc.claimedBy.value in log.since)
    && (doc.expireAt.Some? <==> IsKept(doc.status))
    && doc.completionAttempts == log.failures
    && doc.attemptHistory == LastTen(log.recorded)
    && |log.since| == doc.completionAttempts + (if doc.status == Processing || doc.status == Completed then 1 else 0)
    && |log.since| <= cfg.maxRetries
    && RevisionOf(row) == log.Operations()
    && (row.lastEdit.Some? <==> log.edits > 0)
    && (log.edits == 0 ==> doc.event == log.inserted)
    && (log.edits > 0 ==> row.originalPayload == Some(log.inserted))
  }

  predicate LogOk(log: Log) {
    log.since <= log.claims && log.delivered <= log.claims
  }

  /** The copy is the row as it stands, save for what the model's constructor and marks do to it. */
  predicate CopyAgrees(cfg: Config, row: Row, work: Work) {
    var copy := FromDocument(cfg, row.doc, work.read);
    work.copy == if work.stage.Marked? then MarkComplete(cfg, copy, work.stage.at) else copy
  }

  predicate WorkOk(cfg: Config, s: State, w: Work) {
    && w.id in s.log
    && w.token in s.log[w.id].claims
    && (w.stage.Waiting? ==> w.token !in s.log[w.id].delivered)
    && (FenceHolds(s, w.token, w.id) ==> CopyAgrees(cfg, s.rows[w.id], w))
  }

  predicate EditOk(s: State, edit: PendingEdit) {
    && edit.id in s.log
    && var log := s.log[edit.id];
       && edit.revision <= log.Operations()
       && (edit.revision == log.Operations() ==>
             edit.original == if log.edits == 0 then Some(log.inserted) else None)
  }

  predicate SameClaim(w: Work, w': Work) {
    w.token == w'.token && w.id == w'.id
  }

  /** One copy at most is held under one claim. */
  predicate OneCopyPerClaim(s: State) {
    forall h, h' :: h in s.work && h' in s.work && SameClaim(s.work[h], s.work[h']) ==> h == h'
  }

  predicate Inv(cfg: Config, s: State) {
    && s.Logged()
    && (forall id :: id in s.rows ==> RowOk(cfg, s.rows[id], s.log[id]))
    && (forall id :: id in s.log ==> LogOk(s.log[id]))
    && (forall h :: h in s.work ==> WorkOk(cfg, s, s.work[h]))
    && OneCopyPerClaim(s)
    && (forall editor :: editor in s.pending ==> EditOk(s, s.pending[editor]))
  }

  /*** What the steps do to one row and its log ***/

  lemma ClaimedRowOk(cfg: Config, row: Row, log: Log, token: Token, now: Time)
    requires RowOk(cfg, row, log) && LogOk(log) && Claimable(cfg, row) && token !in log.claims
    ensures RowOk(cfg, Claim(cfg, row, token, now), log.Claim(token)) && LogOk(log.Claim(token))
  {
  }

  lemma CompletedRowOk(cfg: Config, row: Row, log: Log, read: Time, now: Time)
    requires RowOk(cfg, row, log) && row.doc.status == Processing
    ensures RowOk(cfg, row.(doc := MarkComplete(cfg, FromDocument(cfg, row.doc, read), now)), log)
  {
  }

  /** A failure after a completing write that threw undoes the marks that write left on the copy. */
  lemma FailedRowOk(cfg: Config, row: Row, log: Log, work: Work, failure: Failure, now: Time)
    requires RowOk(cfg, row, log) && LogOk(log) && row.doc.status == Processing && CopyAgrees(cfg, row, work)
    ensures
      var log1 := log.Fail(failure.error);
      RowOk(cfg, row.(doc := MarkFailed(cfg, work.copy, failure, now)), log1) && LogOk(log1)
  {
    HistoryIsLastTenFailures(log.recorded, failure.error);
  }

  lemma ExpiredRowOk(cfg: Config, row: Row, log: Log, now: Time)
    requires RowOk(cfg, row, log) && LogOk(log) && IsExpired(row, now)
    ensures
      var log1 := log.Fail(Some(ClaimExpired(now)));
      RowOk(cfg, SweepExpired(row, now), log1) && LogOk(log1)
  {
    HistoryIsLastTenFailures(log.recorded, Some(ClaimExpired(now)));
  }

  lemma MovedRowOk(cfg: Config, row: Row, log: Log)
    requires RowOk(cfg, row, log)
    ensures RowOk(cfg, SweepDead(cfg, row), log)
    ensures RowOk(cfg, SweepFailed(row), log)
    ensures RowOk(cfg, SweepResubmitted(row), log)
  {
  }

  lemma RedrivenRowOk(cfg: Config, row: Row, log: Log, now: Time)
    requires RowOk(cfg, row, log) && LogOk(log) && IsRedrivable(row.doc.status)
    ensures RowOk(cfg, Redrive(row, now), log.Redrive()) && LogOk(log.Redrive())
  {
  }

  /*** From one row to the whole state ***/

  predicate LogGrows(log: Log, log1: Log) {
    && log1.inserted == log.inserted
    && log.claims <= log1.claims
    && log.Operations() <= log1.Operations()
    && (log.Operations() == log1.Operations() ==> log1.edits == log.edits)
  }

  /** `s1` differs from `s` at the row `id` at most. */
  predicate OnlyAt(s: State, s1: State, id: Id) {
    && s1.rows.Keys == s.rows.Keys && s1.log.Keys == s.log.Keys && id in s.log
    && (forall other :: other in s.rows && other != id ==> s1.rows[other] == s.rows[other])
    && (forall other :: other in s.log && other != id ==> s1.log[other] == s.log[other])
    && LogGrows(s.log[id], s1.log[id])
  }

  predicate SamePending(s: State, s1: State) {
    forall e :: e in s1.pending ==> e in s.pending && s1.pending[e] == s.pending[e]
  }

  lemma EditsStayOk(s: State, s1: State, id: Id)
    requires s.Logged() && OnlyAt(s, s1, id) && SamePending(s, s1)
    requires forall editor :: editor in s.pending ==> EditOk(s, s.pending[editor])
    ensures forall editor :: editor in s1.pending ==> EditOk(s1, s1.pending[editor])
  {
    forall editor | editor in s1.pending
      ensures EditOk(s1, s1.pending[editor])
    {
      assert EditOk(s, s.pending[editor]);
    }
  }

  /** A copy nobody touched stays right if its row did not change, or its claim ended. */
  lemma WorkStaysOk(cfg: Config, s: State, s1: State, id: Id, w: Work)
    requires WorkOk(cfg, s, w) && OnlyAt(s, s1, id)
    requires w.id == id ==> w.token in s1.log[id].delivered ==> w.token in s.log[id].delivered
    requires w.id == id && id in s1.rows ==>
      s1.rows[id] == s.rows[id] || s1.rows[id].doc.claimedBy != Some(w.token)
    ensures WorkOk(cfg, s1, w)
  {
  }

  /** A step that leaves the row claimed by nobody and touches no copy. */
  lemma UnclaimedKeepsInv(cfg: Config, s: State, s1: State, id: Id)
    requires Inv(cfg, s) && id in s.rows && OnlyAt(s, s1, id) && SamePending(s, s1)
    requires s1.rows[id].doc.claimedBy == None
    requires forall h :: h in s1.work ==> h in s.work && s1.work[h] == s.work[h]
    requires s1.log[id].delivered == s.log[id].delivered
    requires LogOk(s1.log[id]) && RowOk(cfg, s1.rows[id], s1.log[id])
    ensures Inv(cfg, s1)
  {
    forall h | h in s1.work
      ensures WorkOk(cfg, s1, s1.work[h])
    {
      WorkStaysOk(cfg, s, s1, id, s.work[h]);
    }
    EditsStayOk(s, s1, id);
  }

  lemma SetBothKeepsInv(cfg: Config, s: State, id: Id, row: Row, log: Log)
    requires Inv(cfg, s) && id in s.rows && RowOk(cfg, row, log) && LogOk(log)
    requires row.doc.claimedBy == None && LogGrows(s.log[id], log) && log.delivered == s.log[id].delivered
    ensures Inv(cfg, SetBoth(s, id, row, log))
  {
    UnclaimedKeepsInv(cfg, s, SetBoth(s, id, row, log), id);
  }

  /** Another copy under the same claim, in the place of one there was. */
  lemma ReplacingKeepsOneCopy(s: State, s1: State, handle: Handle)
    requires OneCopyPerClaim(s) && handle in s.work && s1.work.Keys == s.work.Keys
    requires SameClaim(s.work[handle], s1.work[handle])
    requires forall h :: h in s.work && h != handle ==> s1.work[h] == s.work[h]
    ensures OneCopyPerClaim(s1)
  {
    forall h, h' | h in s1.work && h' in s1.work && SameClaim(s1.work[h], s1.work[h'])
      ensures h == h'
    {
      assert SameClaim(s.work[h], s.work[h']);
    }
  }

  /** A step on the copy at `handle` and on the row it is a copy of. */
  lemma HandlerKeepsInv(cfg: Config, s: State, s1: State, handle: Handle)
    requires Inv(cfg, s) && handle in s1.work && SamePending(s, s1)
    requires OnlyAt(s, s1, s1.work[handle].id)
    requires forall h :: h in s1.work && h != handle ==> h in s.work && s1.work[h] == s.work[h]
    requires OneCopyPerClaim(s1)
    requires var w := s1.work[handle];
      && WorkOk(cfg, s1, w)
      && s1.log[w.id].delivered <= s.log[w.id].delivered + {w.token}
      && LogOk(s1.log[w.id])
      && (w.id in s1.rows ==>
            && RowOk(cfg, s1.rows[w.id], s1.log[w.id])
            && (s1.rows[w.id] == s.rows[w.id]
                || s1.rows[w.id].doc.claimedBy == None || s1.rows[w.id].doc.claimedBy == Some(w.token)))
    ensures Inv(cfg, s1)
  {
    var w := s1.work[handle];
    forall h | h in s1.work
      ensures WorkOk(cfg, s1, s1.work[h])
    {
      if h != handle {
        assert WorkOk(cfg, s, s.work[h]);
        WorkStaysOk(cfg, s, s1, w.id, s.work[h]);
      }
    }
    EditsStayOk(s, s1, w.id);
  }

  /** A copy that goes away, or a row that does, leaves nothing behind to disagree with. */
  lemma RemovalKeepsInv(cfg: Config, s: State, s1: State)
    requires Inv(cfg, s)
    requires s1.log == s.log && SamePending(s, s1)
    requires forall id :: id in s1.rows ==> id in s.rows && s1.rows[id] == s.rows[id]
    requires forall h :: h in s1.work ==> h in s.work && s1.work[h] == s.work[h]
    ensures Inv(cfg, s1)
  {
    forall h | h in s1.work
      ensures WorkOk(cfg, s1, s1.work[h])
    {
      assert WorkOk(cfg, s, s.work[h]);
    }
    forall editor | editor in s1.pending
      ensures EditOk(s1, s1.pending[editor])
    {
      assert EditOk(s, s.pending[editor]);
    }
  }

  /*** Each kind of step keeps the invariant ***/

  lemma InsertKeepsInv(cfg: Config, s: State, id: Id, event: Payload, segregationRef: string, now: Time)
    requires Inv(cfg, s)
    ensures Inv(cfg, ApplyInsert(cfg, s, id, event, segregationRef, now))
  {
    var s1 := ApplyInsert(cfg, s, id, event, segregationRef, now);
    if id !in s.log {
      assert RowOk(cfg, s1.rows[id], s1.log[id]);
      forall h | h in s1.work
        ensures WorkOk(cfg, s1, s1.work[h])
      {
        assert WorkOk(cfg, s, s.work[h]);
      }
      forall editor | editor in s1.pending
        ensures EditOk(s1, s1.pending[editor])
      {
        assert EditOk(s, s.pending[editor]);
      }
    }
  }

  lemma ClaimKeepsOneCopy(cfg: Config, s: State, handle: Handle, token: Token, id: Id, now: Time)
    requires Inv(cfg, s) && Fresh(s, ClaimRow(handle, token, id, now))
    ensures OneCopyPerClaim(ApplyClaim(cfg, s, handle, token, id, now))
  {
    assert forall h :: h in s.work ==> WorkOk(cfg, s, s.work[h]);
  }

  lemma ClaimedCopyOk(cfg: Config, s: State, handle: Handle, token: Token, id: Id, now: Time)
    requires s.Logged() && id in s.rows && LogOk(s.log[id]) && token !in s.log[id].claims
    requires handle !in s.work && Claimable(cfg, s.rows[id])
    ensures var s1 := ApplyClaim(cfg, s, handle, token, id, now); WorkOk(cfg, s1, s1.work[handle])
  {
  }

  lemma ClaimChangesOnly(cfg: Config, s: State, handle: Handle, token: Token, id: Id, now: Time)
    requires s.Logged() && id in s.rows && handle !in s.work && Claimable(cfg, s.rows[id])
    ensures
      var s1 := ApplyClaim(cfg, s, handle, token, id, now);
      && OnlyAt(s, s1, id) && SamePending(s, s1)
      && s1.log[id].delivered == s.log[id].delivered
      && (forall h :: h in s1.work && h != handle ==> h in s.work && s1.work[h] == s.work[h])
  {
  }

  lemma ClaimKeepsInv(cfg: Config, s: State, handle: Handle, token: Token, id: Id, now: Time)
    requires Inv(cfg, s) && Fresh(s, ClaimRow(handle, token, id, now))
    ensures Inv(cfg, ApplyClaim(cfg, s, handle, token, id, now))
  {
    if handle !in s.work && id in s.rows && Claimable(cfg, s.rows[id]) {
      var s1 := ApplyClaim(cfg, s, handle, token, id, now);
      assert RowOk(cfg, s1.rows[id], s1.log[id]) && LogOk(s1.log[id]) by {
        ClaimedRowOk(cfg, s.rows[id], s.log[id], token, now);
      }
      assert OneCopyPerClaim(s1) by {
        ClaimKeepsOneCopy(cfg, s, handle, token, id, now);
      }
      assert WorkOk(cfg, s1, s1.work[handle]) by {
        ClaimedCopyOk(cfg, s, handle, token, id, now);
      }
      ClaimChangesOnly(cfg, s, handle, token, id, now);
      HandlerKeepsInv(cfg, s, s1, handle);
    }
  }

  lemma DispatchKeepsInv(cfg: Config, s: State, handle: Handle)
    requires Inv(cfg, s)
    ensures Inv(cfg, ApplyDispatch(s, handle))
  {
    if handle in s.work && s.work[handle].stage.Waiting? {
      var s1 := ApplyDispatch(s, handle);
      assert WorkOk(cfg, s, s.work[handle]);
      HandlerKeepsInv(cfg, s, s1, handle);
    }
  }

  lemma AcknowledgedKeepsInv(cfg: Config, s: State, handle: Handle, now: Time)
    requires Inv(cfg, s) && CanWriteComplete(s, handle)
    ensures Inv(cfg, ApplyComplete(cfg, s, handle, now, Acknowledged))
  {
    var w := s.work[handle];
    var s1 := ApplyComplete(cfg, s, handle, now, Acknowledged);
    assert WorkOk(cfg, s, w);
    if FenceHolds(s, w.token, w.id) {
      CompletedRowOk(cfg, s.rows[w.id], s.log[w.id], w.read, now);
      UnclaimedKeepsInv(cfg, s, s1, w.id);
    } else {
      assert s1.rows == s.rows;
      RemovalKeepsInv(cfg, s, s1);
    }
  }

  /** The completing write landed, but its caller was told it did not. */
  lemma LandedButThrownKeepsInv(cfg: Config, s: State, handle: Handle, now: Time, outcome: Outcome)
    requires Inv(cfg, s) && CanWriteComplete(s, handle) && !outcome.Acknowledged? && !outcome.Lost?
    requires FenceHolds(s, s.work[handle].token, s.work[handle].id)
    ensures Inv(cfg, ApplyComplete(cfg, s, handle, now, outcome))
  {
    var w := s.work[handle];
    assert WorkOk(cfg, s, w);
    var s1 := ApplyComplete(cfg, s, handle, now, outcome);
    assert RowOk(cfg, s1.rows[w.id], s1.log[w.id]) by {
      CompletedRowOk(cfg, s.rows[w.id], s.log[w.id], w.read, now);
    }
    ReplacingKeepsOneCopy(s, s1, handle);
    assert WorkOk(cfg, s1, s1.work[handle]);
    HandlerKeepsInv(cfg, s, s1, handle);
  }

  /** Nothing was written: only the copy is marked. */
  lemma LostKeepsInv(cfg: Config, s: State, handle: Handle, now: Time, outcome: Outcome)
    requires Inv(cfg, s) && CanWriteComplete(s, handle) && !outcome.Acknowledged?
    requires outcome.Lost? || !FenceHolds(s, s.work[handle].token, s.work[handle].id)
    ensures Inv(cfg, ApplyComplete(cfg, s, handle, now, outcome))
  {
    var s1 := ApplyComplete(cfg, s, handle, now, outcome);
    assert WorkOk(cfg, s, s.work[handle]);
    assert s1.rows == s.rows;
    ReplacingKeepsOneCopy(s, s1, handle);
    HandlerKeepsInv(cfg, s, s1, handle);
  }

  lemma CompleteKeepsInv(cfg: Config, s: State, handle: Handle, now: Time, outcome: Outcome)
    requires Inv(cfg, s)
    ensures Inv(cfg, ApplyComplete(cfg, s, handle, now, outcome))
  {
    if CanWriteComplete(s, handle) {
      if outcome.Acknowledged? {
        AcknowledgedKeepsInv(cfg, s, handle, now);
      } else if outcome.Lost? || !FenceHolds(s, s.work[handle].token, s.work[handle].id) {
        LostKeepsInv(cfg, s, handle, now, outcome);
      } else {
        LandedButThrownKeepsInv(cfg, s, handle, now, outcome);
      }
    }
  }

  lemma FailedKeepsInv(cfg: Config, s: State, handle: Handle, failure: Failure, now: Time, outcome: Outcome)
    requires Inv(cfg, s)
    ensures Inv(cfg, ApplyFailed(cfg, s, handle, failure, now, outcome))
  {
    if CanWriteFailed(s, handle) {
      var w := s.work[handle];
      var s1 := ApplyFailed(cfg, s, handle, failure, now, outcome);
      assert WorkOk(cfg, s, w);
      if FailureLands(s, handle, outcome) {
        FailedRowOk(cfg, s.rows[w.id], s.log[w.id], w, failure, now);
        UnclaimedKeepsInv(cfg, s, s1, w.id);
      } else {
        assert s1.rows == s.rows;
        RemovalKeepsInv(cfg, s, s1);
      }
    }
  }

  lemma ExpireKeepsInv(cfg: Config, s: State, id: Id, now: Time)
    requires Inv(cfg, s)
    ensures Inv(cfg, ApplyExpire(s, id, now))
  {
    if id in s.rows && IsExpired(s.rows[id], now) {
      var log1 := s.log[id].Fail(Some(ClaimExpired(now)));
      ExpiredRowOk(cfg, s.rows[id], s.log[id], now);
      SetBothKeepsInv(cfg, s, id, SweepExpired(s.rows[id], now), log1);
    }
  }

  lemma SetRowKeepsInv(cfg: Config, s: State, id: Id, row: Row)
    requires Inv(cfg, s) && id in s.rows && RowOk(cfg, row, s.log[id])
    requires row == s.rows[id] || row.doc.claimedBy == None
    ensures Inv(cfg, SetRow(s, id, row))
  {
    if row == s.rows[id] {
      assert SetRow(s, id, row) == s;
    } else {
      UnclaimedKeepsInv(cfg, s, SetRow(s, id, row), id);
    }
  }

  lemma BuryKeepsInv(cfg: Config, s: State, id: Id)
    requires Inv(cfg, s)
    ensures Inv(cfg, Apply(cfg, s, Bury(id)))
  {
    if id in s.rows {
      MovedRowOk(cfg, s.rows[id], s.log[id]);
      SetRowKeepsInv(cfg, s, id, SweepDead(cfg, s.rows[id]));
    }
  }

  lemma ResubmitKeepsInv(cfg: Config, s: State, id: Id)
    requires Inv(cfg, s)
    ensures Inv(cfg, Apply(cfg, s, Resubmit(id)))
  {
    if id in s.rows {
      MovedRowOk(cfg, s.rows[id], s.log[id]);
      SetRowKeepsInv(cfg, s, id, SweepFailed(s.rows[id]));
    }
  }

  lemma RepublishKeepsInv(cfg: Config, s: State, id: Id)
    requires Inv(cfg, s)
    ensures Inv(cfg, Apply(cfg, s, Republish(id)))
  {
    if id in s.rows {
      MovedRowOk(cfg, s.rows[id], s.log[id]);
      SetRowKeepsInv(cfg, s, id, SweepResubmitted(s.rows[id]));
    }
  }

  lemma RedriveKeepsInv(cfg: Config, s: State, id: Id, now: Time)
    requires Inv(cfg, s)
    ensures Inv(cfg, ApplyRedrive(s, id, now))
  {
    if id in s.rows && IsRedrivable(s.rows[id].doc.status) {
      RedrivenRowOk(cfg, s.rows[id], s.log[id], now);
      SetBothKeepsInv(cfg, s, id, Redrive(s.rows[id], now), s.log[id].Redrive());
    }
  }

  lemma PurgeKeepsInv(cfg: Config, s: State, id: Id, now: Time)
    requires Inv(cfg, s)
    ensures Inv(cfg, ApplyPurge(cfg, s, id, now))
  {
    if id in s.rows && s.rows[id].doc.status == DeadLetter {
      var s1 := ApplyPurge(cfg, s, id, now);
      assert RowOk(cfg, s.rows[id], s.log[id]) && LogOk(s.log[id]);
      UnclaimedKeepsInv(cfg, s, s1, id);
    }
  }

  lemma ReadForEditKeepsInv(cfg: Config, s: State, editor: nat, id: Id, revision: nat, event: Payload)
    requires Inv(cfg, s)
    ensures Inv(cfg, ApplyReadForEdit(s, editor, id, revision, event))
  {
    var s1 := ApplyReadForEdit(s, editor, id, revision, event);
    if id in s.rows {
      assert RowOk(cfg, s.rows[id], s.log[id]);
    }
    forall e | e in s1.pending
      ensures EditOk(s1, s1.pending[e])
    {
      if e in s.pending {
        assert EditOk(s, s.pending[e]);
      }
    }
    forall h | h in s1.work
      ensures WorkOk(cfg, s1, s1.work[h])
    {
      assert WorkOk(cfg, s, s.work[h]);
    }
  }

  lemma EditedRowOk(cfg: Config, s: State, e: PendingEdit, now: Time)
    requires Inv(cfg, s) && EditOk(s, e) && e.id in s.rows && EditFence(s.rows[e.id], e.revision)
    ensures
      var row := Edit(cfg, s.rows[e.id], e.revision, e.event, e.original, now);
      var log := s.log[e.id].(edits := s.log[e.id].edits + 1);
      RowOk(cfg, row, log) && LogOk(log) && row.doc.claimedBy == None
  {
    assert RowOk(cfg, s.rows[e.id], s.log[e.id]) && LogOk(s.log[e.id]);
  }

  lemma WriteEditKeepsInv(cfg: Config, s: State, editor: nat, now: Time)
    requires Inv(cfg, s)
    ensures Inv(cfg, ApplyWriteEdit(cfg, s, editor, now))
  {
    var s1 := ApplyWriteEdit(cfg, s, editor, now);
    if EditLands(s, editor) {
      var e := s.pending[editor];
      EditedRowOk(cfg, s, e, now);
      UnclaimedKeepsInv(cfg, s, s1, e.id);
    } else {
      RemovalKeepsInv(cfg, s, s1);
    }
  }

  /** Every step keeps the invariant. */
  lemma StepKeepsInv(cfg: Config, s: State, step: Step)
    requires Inv(cfg, s) && Fresh(s, step)
    ensures Inv(cfg, Apply(cfg, s, step))
  {
    match step
    case Insert(id, event, segregationRef, now) => InsertKeepsInv(cfg, s, id, event, segregationRef, now);
    case ClaimRow(handle, token, id, now) => ClaimKeepsInv(cfg, s, handle, token, id, now);
    case Dispatch(handle) => DispatchKeepsInv(cfg, s, handle);
    case WriteComplete(handle, now, outcome) => CompleteKeepsInv(cfg, s, handle, now, outcome);
    case WriteFailed(handle, failure, now, outcome) => FailedKeepsInv(cfg, s, handle, failure, now, outcome);
    case Crash(handle) => RemovalKeepsInv(cfg, s, Apply(cfg, s, step));
    case Expire(id, now) => ExpireKeepsInv(cfg, s, id, now);
    case Bury(id) => BuryKeepsInv(cfg, s, id);
    case Resubmit(id) => ResubmitKeepsInv(cfg, s, id);
    case Republish(id) => RepublishKeepsInv(cfg, s, id);
    case RedriveRow(id, now) => RedriveKeepsInv(cfg, s, id, now);
    case PurgeRow(id, now) => PurgeKeepsInv(cfg, s, id, now);
    case ReadForEdit(editor, id, revision, event) => ReadForEditKeepsInv(cfg, s, editor, id, revision, event);
    case WriteEdit(editor, now) => WriteEditKeepsInv(cfg, s, editor, now);
    case Ttl(id, now) => RemovalKeepsInv(cfg, s, Apply(cfg, s, step));
  }
}
