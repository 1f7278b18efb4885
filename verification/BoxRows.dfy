/**
 One row of the inbox or the outbox, and every update a repository applies to it.
 Each update is a function from the stored row to the stored row, so that the
 protocol and the repository class below are stated over the same functions.
 */
module BoxRows {
  import opened Wrappers

  type Time = int
  type Id = nat
  type Token = nat

  datatype Kind = Inbox | Outbox

  datatype Config = Config(kind: Kind, maxRetries: nat, expiresMs: nat, retentionMs: nat)

  datatype Status =
    | Published | Processing | Failed | Completed | Resubmitted | DeadLetter | Purged

  /** An event: its own time, which the inbox orders by, and everything else in it. */
  datatype Payload = Payload(time: Option<Time>, body: string)

  datatype Attempt = Attempt(at: Time, name: string, message: string)

  /** What a handler threw: no error at all (a falsy value), or an error that may say it is permanent. */
  datatype Failure = Failure(error: Option<Attempt>, permanent: bool)

  /** The columns the in-memory models read and write back whole. */
  datatype Document = Document(
    event: Payload,
    segregationRef: string,
    order: Time,
    status: Status,
    retryable: bool,
    completionAttempts: nat,
    attemptHistory: seq<Attempt>,
    lastError: Option<Attempt>,
    lastResubmissionDate: Option<Time>,
    completionDate: Option<Time>,
    expireAt: Option<Time>,
    lastRedrive: Option<Time>,
    claimedBy: Option<Token>,
    claimedAt: Option<Time>,
    claimExpiresAt: Option<Time>)

  /** A stored row: the models' columns, and those only an operator's action writes. */
  datatype Row = Row(
    doc: Document,
    payloadRevision: Option<nat>,
    lastEdit: Option<Time>,
    originalPayload: Option<Payload>,
    lastPurge: Option<Time>)

  const MAX_ATTEMPT_HISTORY: nat := 10

  /*** The attempt history ***/

  /** The end of a history, in order: no more than its last ten entries. */
  function LastTen(history: seq<Attempt>): seq<Attempt> {
    if |history| <= MAX_ATTEMPT_HISTORY then history else history[|history| - MAX_ATTEMPT_HISTORY..]
  }

  /** What is kept are the entries at the end, ten of them once there are as many. */
  lemma LastTenAreTheLatest(history: seq<Attempt>, i: nat)
    requires i < |LastTen(history)|
    ensures |LastTen(history)| == if |history| <= 10 then |history| else 10
    ensures LastTen(history)[|LastTen(history)| - 1 - i] == history[|history| - 1 - i]
  {
  }

  /** The append the in-memory models make; an absent error appends nothing. */
  function AppendAttempt(history: seq<Attempt>, entry: Option<Attempt>): seq<Attempt> {
    if entry.None? then LastTen(history) else LastTen(history + [entry.value])
  }

  /** The append the expiry sweep leaves to the server: `$push` with `$slice: -10`. */
  function PushAttempt(history: seq<Attempt>, entry: Attempt): seq<Attempt> {
    LastTen(history + [entry])
  }

  /** All the entries so far, one failure later; a failure that carried no error leaves none. */
  function Recorded(recorded: seq<Attempt>, entry: Option<Attempt>): seq<Attempt> {
    if entry.None? then recorded else recorded + [entry.value]
  }

  /** Trimming before an append changes nothing: only the last ten survive either way. */
  lemma TrimThenAppend(history: seq<Attempt>, entry: Attempt)
    ensures LastTen(LastTen(history) + [entry]) == LastTen(history + [entry])
  {
    if |history| > MAX_ATTEMPT_HISTORY {
      assert LastTen(history) + [entry] == (history + [entry])[|history| - MAX_ATTEMPT_HISTORY..];
    }
  }

  /**
   However a failure is appended, in memory to a trimmed copy or by the server to
   the stored array, the history stays the last ten of all the failures so far.
   */
  lemma HistoryIsLastTenFailures(recorded: seq<Attempt>, entry: Option<Attempt>)
    ensures AppendAttempt(LastTen(recorded), entry) == LastTen(Recorded(recorded, entry))
    ensures AppendAttempt(LastTen(LastTen(recorded)), entry) == LastTen(Recorded(recorded, entry))
    ensures entry.Some? ==> PushAttempt(LastTen(recorded), entry.value) == LastTen(Recorded(recorded, entry))
  {
    if entry.Some? {
      TrimThenAppend(recorded, entry.value);
    }
  }

  /*** The in-memory model ***/

  /** `fromDocument`: no claim columns, a trimmed history, and the inbox's order re-derived. */
  function FromDocument(cfg: Config, doc: Document, now: Time): Document {
    doc.(
      attemptHistory := LastTen(doc.attemptHistory),
      order := if cfg.kind.Inbox? then doc.event.time.GetOr(now) else doc.order,
      claimedBy := None, claimedAt := None, claimExpiresAt := None)
  }

  function MarkComplete(cfg: Config, doc: Document, now: Time): Document {
    doc.(
      status := Completed,
      completionDate := Some(now),
      expireAt := Some(now + cfg.retentionMs),
      claimedBy := None, claimedAt := None, claimExpiresAt := None)
  }

  /** The failure says another attempt would be in vain; the outbox does not ask. */
  predicate IsPermanent(cfg: Config, failure: Failure) {
    cfg.kind.Inbox? && failure.error.Some? && failure.permanent
  }

  function MarkFailed(cfg: Config, doc: Document, failure: Failure, now: Time): Document {
    doc.(
      status := if IsPermanent(cfg, failure) then DeadLetter else Failed,
      retryable := if cfg.kind.Inbox? then !IsPermanent(cfg, failure) else doc.retryable,
      expireAt := None,
      lastResubmissionDate := Some(now),
      lastError := if failure.error.Some? then failure.error else doc.lastError,
      attemptHistory := AppendAttempt(doc.attemptHistory, failure.error),
      completionAttempts := doc.completionAttempts + 1,
      claimedBy := None, claimedAt := None, claimExpiresAt := None)
  }

  /*** The repository's updates ***/

  function NewRow(cfg: Config, event: Payload, segregationRef: string, now: Time): Row {
    Row(
      Document(
        event, segregationRef,
        if cfg.kind.Inbox? then event.time.GetOr(now) else now,
        Published, true, 0, [], None, None, None, None, None, None, None, None),
      None, None, None, None)
  }

  predicate Claimable(cfg: Config, row: Row) {
    && row.doc.status == Published
    && row.doc.claimedBy.None?
    && row.doc.completionAttempts < cfg.maxRetries
  }

  function Claim(cfg: Config, row: Row, token: Token, now: Time): Row {
    row.(doc := row.doc.(
      status := Processing,
      claimedBy := Some(token),
      claimedAt := Some(now),
      claimExpiresAt := Some(now + cfg.expiresMs)))
  }

  /** The fenced write: the whole copy replaces the models' columns, if the claim still stands. */
  function Update(row: Row, copy: Document, token: Token): Row {
    if row.doc.claimedBy == Some(token) then row.(doc := copy) else row
  }

  function Unclaimed(doc: Document, status: Status): Document {
    doc.(status := status, claimedBy := None, claimedAt := None, claimExpiresAt := None)
  }

  predicate IsTerminal(status: Status) {
    status == DeadLetter || status == Completed || status == Purged
  }

  predicate IsExpired(row: Row, now: Time) {
    && row.doc.claimExpiresAt.Some? && row.doc.claimExpiresAt.value < now
    && !IsTerminal(row.doc.status)
  }

  function ClaimExpired(now: Time): Attempt {
    Attempt(now, "ClaimExpired", "claim expired before completion")
  }

  function SweepExpired(row: Row, now: Time): Row {
    if IsExpired(row, now) then
      row.(doc := Unclaimed(row.doc, Failed).(
        lastError := Some(ClaimExpired(now)),
        attemptHistory := PushAttempt(row.doc.attemptHistory, ClaimExpired(now)),
        completionAttempts := row.doc.completionAttempts + 1))
    else row
  }

  function SweepDead(cfg: Config, row: Row): Row {
    if cfg.maxRetries <= row.doc.completionAttempts && !IsTerminal(row.doc.status)
    then row.(doc := Unclaimed(row.doc, DeadLetter))
    else row
  }

  function SweepFailed(row: Row): Row {
    if row.doc.status == Failed then row.(doc := Unclaimed(row.doc, Resubmitted)) else row
  }

  function SweepResubmitted(row: Row): Row {
    if row.doc.status == Resubmitted then row.(doc := Unclaimed(row.doc, Published)) else row
  }

  predicate IsRedrivable(status: Status) {
    status == DeadLetter || status == Purged
  }

  /** The stored counter; 0 as long as no operator's action has created it. */
  function RevisionOf(row: Row): nat {
    row.payloadRevision.GetOr(0)
  }

  function Redrive(row: Row, now: Time): Row {
    if IsRedrivable(row.doc.status) then
      row.(
        doc := Unclaimed(row.doc, Resubmitted).(
          retryable := true, completionAttempts := 0, attemptHistory := [],
          lastRedrive := Some(now), expireAt := None),
        payloadRevision := Some(RevisionOf(row) + 1))
    else row
  }

  function Purge(cfg: Config, row: Row, now: Time): Row {
    if row.doc.status == DeadLetter then
      row.(
        doc := row.doc.(status := Purged, expireAt := Some(now + cfg.retentionMs)),
        lastPurge := Some(now),
        payloadRevision := Some(RevisionOf(row) + 1))
    else row
  }

  /** The edit's fence: still redrivable, still at the revision the editor read. */
  predicate EditFence(row: Row, revision: nat) {
    && IsRedrivable(row.doc.status)
    && if revision == 0 then row.payloadRevision == None || row.payloadRevision == Some(0)
       else row.payloadRevision == Some(revision)
  }

  /** The fenced write of an edit; without an `original` the one kept before stays. */
  function Edit(cfg: Config, row: Row, revision: nat, event: Payload, original: Option<Payload>, now: Time): Row {
    if EditFence(row, revision) then
      row.(
        doc := row.doc.(
          event := event,
          order := if cfg.kind.Inbox? then event.time.GetOr(now) else row.doc.order),
        payloadRevision := Some(revision + 1),
        lastEdit := Some(now),
        originalPayload := if original.Some? then original else row.originalPayload)
    else row
  }

  /** The TTL index deletes by `expireAt`, among completed and purged rows only. */
  predicate TtlDeletes(row: Row, now: Time) {
    && (row.doc.status == Completed || row.doc.status == Purged)
    && row.doc.expireAt.Some? && row.doc.expireAt.value <= now
  }
}
