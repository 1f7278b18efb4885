/**
 What holds over every run of the delivery protocol, however its steps interleave,
 as long as no token claims a row it has claimed before.
 */
module BoxRuns {
  import opened Wrappers
  import opened Collections
  import opened BoxRows
  import opened BoxProtocol

  function Exec(cfg: Config, s: State, steps: seq<Step>): (s1: State)
    requires s.Logged()
    ensures s1.Logged() && s.log.Keys <= s1.log.Keys
    decreases |steps|
  {
    if steps == [] then s else Exec(cfg, Apply(cfg, s, steps[0]), steps[1..])
  }

  predicate FreshRun(cfg: Config, s: State, steps: seq<Step>)
    requires s.Logged()
    decreases |steps|
  {
    steps == [] || (Fresh(s, steps[0]) && FreshRun(cfg, Apply(cfg, s, steps[0]), steps[1..]))
  }

  /** The invariant holds in every state any fresh run reaches. */
  lemma {:induction false} RunKeepsInv(cfg: Config, s: State, steps: seq<Step>)
    requires Inv(cfg, s) && FreshRun(cfg, s, steps)
    ensures Inv(cfg, Exec(cfg, s, steps))
    decreases |steps|
  {
    if steps != [] {
      StepKeepsInv(cfg, s, steps[0]);
      RunKeepsInv(cfg, Apply(cfg, s, steps[0]), steps[1..]);
    }
  }

  /*** The fence ***/

  /** What a write gives the inbox's order: the event's own time, or else when the copy was read. */
  function OrderOf(cfg: Config, doc: Document, read: Time): Time {
    if cfg.kind.Inbox? then doc.event.time.GetOr(read) else doc.order
  }

  /**
   A completing write changes the rows exactly when it reaches the database and the
   row is still PROCESSING under the claim it was made under. It then changes that
   row alone, and though it writes the whole document back, changes no more of it
   than its status, its dates and its claim, and in the inbox its derived order.
   */
  lemma CompletingWriteActsOnItsOwnClaim(cfg: Config, s: State, handle: Handle, now: Time, outcome: Outcome)
    requires Inv(cfg, s) && CanWriteComplete(s, handle)
    ensures
      var w := s.work[handle];
      var s1 := Apply(cfg, s, WriteComplete(handle, now, outcome));
      var lands := FenceHolds(s, w.token, w.id) && !outcome.Lost?;
      && (!lands ==> s1.rows == s.rows)
      && (lands ==>
        var row, row1 := s.rows[w.id], s1.rows[w.id];
        && s1.rows == s.rows[w.id := row1]
        && row.doc.status == Processing && row1.doc.status == Completed
        && row1 == row.(doc := row.doc.(
             status := Completed, completionDate := Some(now), expireAt := Some(now + cfg.retentionMs),
             order := OrderOf(cfg, row.doc, w.read),
             claimedBy := None, claimedAt := None, claimExpiresAt := None)))
  {
    var w := s.work[handle];
    assert WorkOk(cfg, s, w);
    var s1 := ApplyComplete(cfg, s, handle, now, outcome);
    if FenceHolds(s, w.token, w.id) && !outcome.Lost? {
      assert RowOk(cfg, s.rows[w.id], s.log[w.id]);
    } else {
      assert s1.rows == s.rows;
    }
  }

  /**
   The same for a failing write, also one that follows a completing write that threw:
   the attempt is counted once and its entry appended once, onto the row's own.
   */
  lemma FailingWriteActsOnItsOwnClaim(
    cfg: Config, s: State, handle: Handle, failure: Failure, now: Time, outcome: Outcome)
    requires Inv(cfg, s) && CanWriteFailed(s, handle)
    ensures
      var w := s.work[handle];
      var s1 := Apply(cfg, s, WriteFailed(handle, failure, now, outcome));
      && (!FailureLands(s, handle, outcome) ==> s1.rows == s.rows)
      && (FailureLands(s, handle, outcome) ==>
        var row, row1 := s.rows[w.id], s1.rows[w.id];
        && s1.rows == s.rows[w.id := row1]
        && row.doc.status == Processing
        && row1 == row.(doc := FailedDocument(cfg, row.doc, s.log[w.id], w, failure, now)))
  {
    var w := s.work[handle];
    assert WorkOk(cfg, s, w);
    var s1 := ApplyFailed(cfg, s, handle, failure, now, outcome);
    if FailureLands(s, handle, outcome) {
      assert RowOk(cfg, s.rows[w.id], s.log[w.id]);
      FailedCopyIs(cfg, s.rows[w.id], s.log[w.id], w, failure, now);
    } else {
      assert s1.rows == s.rows;
    }
  }

  /** The row's own document after one failure: what the failure sets, and nothing else. */
  function FailedDocument(cfg: Config, doc: Document, log: Log, w: Work, failure: Failure, now: Time): Document {
    doc.(
      status := if IsPermanent(cfg, failure) then DeadLetter else Failed,
      completionAttempts := doc.completionAttempts + 1,
      attemptHistory := LastTen(Recorded(log.recorded, failure.error)),
      expireAt := None, lastResubmissionDate := Some(now),
      completionDate := if w.stage.Marked? then Some(w.stage.at) else doc.completionDate,
      retryable := if cfg.kind.Inbox? then !IsPermanent(cfg, failure) else doc.retryable,
      lastError := if failure.error.Some? then failure.error else doc.lastError,
      order := OrderOf(cfg, doc, w.read),
      claimedBy := None, claimedAt := None, claimExpiresAt := None)
  }

  lemma FailedCopyIs(cfg: Config, row: Row, log: Log, w: Work, failure: Failure, now: Time)
    requires row.doc.attemptHistory == LastTen(log.recorded) && CopyAgrees(cfg, row, w)
    ensures MarkFailed(cfg, w.copy, failure, now) == FailedDocument(cfg, row.doc, log, w, failure, now)
  {
    HistoryIsLastTenFailures(log.recorded, failure.error);
  }

  /*** What one step does to one row ***/

  /** The whole lifecycle: which step may move a row from which status to which. */
  predicate MayMove(step: Step, from: Status, to: Status) {
    match from
    case Published => (step.ClaimRow? && to == Processing) || (step.Bury? && to == DeadLetter)
    case Processing =>
      || (step.WriteComplete? && to == Completed)
      || (step.WriteFailed? && (to == Failed || to == DeadLetter))
      || (step.Expire? && to == Failed)
    case Failed => (step.Resubmit? && to == Resubmitted) || (step.Bury? && to == DeadLetter)
    case Resubmitted => (step.Republish? && to == Published) || (step.Bury? && to == DeadLetter)
    case DeadLetter => (step.PurgeRow? && to == Purged) || (step.RedriveRow? && to == Resubmitted)
    case Purged => step.RedriveRow? && to == Resubmitted
    case Completed => false
  }

  /**
   The row keeps to its lifecycle and is left alone once completed; its claim stands,
   ends, or is a new one; and its event is the same unless an edit was counted.
   */
  predicate Effect(step: Step, row: Row, log: Log, row1: Row, log1: Log) {
    && (row1.doc.status == row.doc.status || MayMove(step, row.doc.status, row1.doc.status))
    && (row.doc.status == Completed ==> row1 == row)
    && (|| row1.doc.claimedBy == row.doc.claimedBy
        || row1.doc.claimedBy == None
        || (step.ClaimRow? && row1.doc.claimedBy == Some(step.token) && step.token !in log.claims))
    && (log1.edits == log.edits ==> row1.doc.event == row.doc.event)
  }

  lemma CompletingEffect(cfg: Config, s: State, step: Step, id: Id)
    requires Inv(cfg, s) && id in s.rows && step.WriteComplete?
    ensures var s1 := Apply(cfg, s, step); id in s1.rows && Effect(step, s.rows[id], s.log[id], s1.rows[id], s1.log[id])
  {
    assert RowOk(cfg, s.rows[id], s.log[id]);
    if CanWriteComplete(s, step.handle) {
      CompletingWriteActsOnItsOwnClaim(cfg, s, step.handle, step.now, step.outcome);
    }
  }

  lemma FailingEffect(cfg: Config, s: State, step: Step, id: Id)
    requires Inv(cfg, s) && id in s.rows && step.WriteFailed?
    ensures var s1 := Apply(cfg, s, step); id in s1.rows && Effect(step, s.rows[id], s.log[id], s1.rows[id], s1.log[id])
  {
    assert RowOk(cfg, s.rows[id], s.log[id]);
    if CanWriteFailed(s, step.handle) {
      FailingWriteActsOnItsOwnClaim(cfg, s, step.handle, step.failure, step.now, step.outcome);
    }
  }

  lemma ExpiredRowEffect(cfg: Config, step: Step, row: Row, log: Log)
    requires RowOk(cfg, row, log) && step.Expire? && IsExpired(row, step.now)
    ensures Effect(step, row, log, SweepExpired(row, step.now), log.Fail(Some(ClaimExpired(step.now))))
  {
  }

  lemma ExpireEffect(cfg: Config, s: State, step: Step, id: Id)
    requires s.Logged() && id in s.rows && RowOk(cfg, s.rows[id], s.log[id]) && step.Expire?
    ensures var s1 := Apply(cfg, s, step); id in s1.rows && Effect(step, s.rows[id], s.log[id], s1.rows[id], s1.log[id])
  {
    if step.id == id && IsExpired(s.rows[id], step.now) {
      ExpiredRowEffect(cfg, step, s.rows[id], s.log[id]);
    } else {
      var s1 := Apply(cfg, s, step);
      assert s1.rows[id] == s.rows[id] && s1.log[id] == s.log[id];
    }
  }

  lemma BuryEffect(cfg: Config, s: State, step: Step, id: Id)
    requires s.Logged() && id in s.rows && RowOk(cfg, s.rows[id], s.log[id]) && step.Bury?
    ensures var s1 := Apply(cfg, s, step); id in s1.rows && Effect(step, s.rows[id], s.log[id], s1.rows[id], s1.log[id])
  {
  }

  lemma ResubmitEffect(cfg: Config, s: State, step: Step, id: Id)
    requires s.Logged() && id in s.rows && RowOk(cfg, s.rows[id], s.log[id]) && step.Resubmit?
    ensures var s1 := Apply(cfg, s, step); id in s1.rows && Effect(step, s.rows[id], s.log[id], s1.rows[id], s1.log[id])
  {
  }

  lemma RepublishEffect(cfg: Config, s: State, step: Step, id: Id)
    requires s.Logged() && id in s.rows && RowOk(cfg, s.rows[id], s.log[id]) && step.Republish?
    ensures var s1 := Apply(cfg, s, step); id in s1.rows && Effect(step, s.rows[id], s.log[id], s1.rows[id], s1.log[id])
  {
  }

  lemma ClaimEffect(cfg: Config, s: State, step: Step, id: Id)
    requires s.Logged() && id in s.rows && RowOk(cfg, s.rows[id], s.log[id])
    requires step.ClaimRow? && Fresh(s, step)
    ensures var s1 := Apply(cfg, s, step); id in s1.rows && Effect(step, s.rows[id], s.log[id], s1.rows[id], s1.log[id])
  {
  }

  lemma RedrivenRowEffect(cfg: Config, step: Step, row: Row, log: Log)
    requires RowOk(cfg, row, log) && step.RedriveRow? && IsRedrivable(row.doc.status)
    ensures Effect(step, row, log, Redrive(row, step.now), log.Redrive())
  {
  }

  lemma RedriveEffect(cfg: Config, s: State, step: Step, id: Id)
    requires s.Logged() && id in s.rows && RowOk(cfg, s.rows[id], s.log[id]) && step.RedriveRow?
    ensures var s1 := Apply(cfg, s, step); id in s1.rows && Effect(step, s.rows[id], s.log[id], s1.rows[id], s1.log[id])
  {
    if step.id == id && IsRedrivable(s.rows[id].doc.status) {
      RedrivenRowEffect(cfg, step, s.rows[id], s.log[id]);
    } else {
      var s1 := Apply(cfg, s, step);
      assert s1.rows[id] == s.rows[id] && s1.log[id] == s.log[id];
    }
  }

  lemma PurgeEffect(cfg: Config, s: State, step: Step, id: Id)
    requires s.Logged() && id in s.rows && RowOk(cfg, s.rows[id], s.log[id]) && step.PurgeRow?
    ensures var s1 := Apply(cfg, s, step); id in s1.rows && Effect(step, s.rows[id], s.log[id], s1.rows[id], s1.log[id])
  {
  }

  lemma EditEffect(cfg: Config, s: State, step: Step, id: Id)
    requires s.Logged() && id in s.rows && RowOk(cfg, s.rows[id], s.log[id])
    requires step.ReadForEdit? || step.WriteEdit?
    ensures var s1 := Apply(cfg, s, step); id in s1.rows && Effect(step, s.rows[id], s.log[id], s1.rows[id], s1.log[id])
  {
  }

  /** Every step has this effect on every row it does not delete, and only the TTL index deletes. */
  lemma StepEffect(cfg: Config, s: State, step: Step, id: Id)
    requires Inv(cfg, s) && Fresh(s, step) && id in s.rows
    ensures
      var s1 := Apply(cfg, s, step);
      if id in s1.rows then Effect(step, s.rows[id], s.log[id], s1.rows[id], s1.log[id])
      else step.Ttl? && IsKept(s.rows[id].doc.status)
  {
    if step.WriteComplete? {
      CompletingEffect(cfg, s, step, id);
    } else if step.WriteFailed? {
      FailingEffect(cfg, s, step, id);
    } else if step.ClaimRow? {
      ClaimEffect(cfg, s, step, id);
    } else if step.Expire? {
      ExpireEffect(cfg, s, step, id);
    } else if step.Bury? {
      BuryEffect(cfg, s, step, id);
    } else if step.Resubmit? {
      ResubmitEffect(cfg, s, step, id);
    } else if step.Republish? {
      RepublishEffect(cfg, s, step, id);
    } else if step.RedriveRow? {
      RedriveEffect(cfg, s, step, id);
    } else if step.PurgeRow? {
      PurgeEffect(cfg, s, step, id);
    } else if step.ReadForEdit? || step.WriteEdit? {
      EditEffect(cfg, s, step, id);
    } else {
      var s1 := Apply(cfg, s, step);
      assert id in s1.rows ==> s1.rows[id] == s.rows[id];
    }
  }

  /** Rows and their logs never come back or go away by any other means. */
  lemma RowsComeOnce(cfg: Config, s: State, step: Step, id: Id)
    requires s.Logged() && id in s.log && id !in s.rows
    ensures id !in Apply(cfg, s, step).rows
  {
  }

  /** The counts an observer keeps never fall, and claims grow only by a claim. */
  predicate LogEffect(step: Step, log: Log, log1: Log) {
    && log1.inserted == log.inserted
    && log.edits <= log1.edits && log.purges <= log1.purges && log.redrives <= log1.redrives
    && (if step.RedriveRow? && log1.redrives != log.redrives then
          log1.redrives == log.redrives + 1 && log1.claims == log.claims && log1.since == {}
        else if step.ClaimRow? && log1.claims != log.claims then
          log1.redrives == log.redrives && log1.claims == log.claims + {step.token} &&
            log1.since == log.since + {step.token}
        else log1.redrives == log.redrives && log1.claims == log.claims && log1.since == log.since)
  }

  lemma StepLogEffect(cfg: Config, s: State, step: Step, id: Id)
    requires s.Logged() && id in s.log && Fresh(s, step)
    ensures LogEffect(step, s.log[id], Apply(cfg, s, step).log[id])
  {
    if step.ClaimRow? {
      ClaimLogEffect(cfg, s, step, id);
    } else if step.RedriveRow? || step.PurgeRow? || step.WriteEdit? {
      OperatorLogEffect(cfg, s, step, id);
    }
  }

  lemma ClaimLogEffect(cfg: Config, s: State, step: Step, id: Id)
    requires s.Logged() && id in s.log && Fresh(s, step) && step.ClaimRow?
    ensures LogEffect(step, s.log[id], Apply(cfg, s, step).log[id])
  {
  }

  lemma OperatorLogEffect(cfg: Config, s: State, step: Step, id: Id)
    requires s.Logged() && id in s.log && (step.RedriveRow? || step.PurgeRow? || step.WriteEdit?)
    ensures LogEffect(step, s.log[id], Apply(cfg, s, step).log[id])
  {
  }

  /** A claim that has ended does not come back: no step sets `claimedBy` to its token again. */
  lemma EndedClaimStaysEnded(cfg: Config, s: State, step: Step, token: Token, id: Id)
    requires Inv(cfg, s) && Fresh(s, step)
    requires id in s.log && token in s.log[id].claims && !FenceHolds(s, token, id)
    ensures
      var s1 := Apply(cfg, s, step);
      id in s1.log && token in s1.log[id].claims && !FenceHolds(s1, token, id)
  {
    StepLogEffect(cfg, s, step, id);
    if id in s.rows {
      StepEffect(cfg, s, step, id);
    } else {
      RowsComeOnce(cfg, s, step, id);
    }
  }

  lemma UnfencedWriteIsVoid(cfg: Config, s: State, handle: Handle, failure: Failure, now: Time, outcome: Outcome)
    requires s.Logged() && (handle in s.work ==> !FenceHolds(s, s.work[handle].token, s.work[handle].id))
    ensures ApplyComplete(cfg, s, handle, now, outcome).rows == s.rows
    ensures ApplyFailed(cfg, s, handle, failure, now, outcome).rows == s.rows
  {
    if handle in s.work && s.work[handle].id in s.rows {
      assert s.rows[s.work[handle].id := s.rows[s.work[handle].id]] == s.rows;
    }
  }

  /**
   Late writes are void: once the row is no longer under
   the handler's claim, neither of its writes ever changes any row again, whatever
   the rest of the run did to the row.
   */
  lemma {:induction false} OutlivedClaimNeverWrites(
    cfg: Config, s: State, steps: seq<Step>, handle: Handle, token: Token, id: Id,
    failure: Failure, now: Time, outcome: Outcome)
    requires Inv(cfg, s) && FreshRun(cfg, s, steps)
    requires id in s.log && token in s.log[id].claims && !FenceHolds(s, token, id)
    ensures
      var s1 := Exec(cfg, s, steps);
      handle in s1.work && s1.work[handle].token == token && s1.work[handle].id == id ==>
        && Apply(cfg, s1, WriteComplete(handle, now, outcome)).rows == s1.rows
        && Apply(cfg, s1, WriteFailed(handle, failure, now, outcome)).rows == s1.rows
    decreases |steps|
  {
    if steps == [] {
      if handle in s.work && s.work[handle].token == token && s.work[handle].id == id {
        UnfencedWriteIsVoid(cfg, s, handle, failure, now, outcome);
      }
    } else {
      EndedClaimStaysEnded(cfg, s, steps[0], token, id);
      StepKeepsInv(cfg, s, steps[0]);
      OutlivedClaimNeverWrites(cfg, Apply(cfg, s, steps[0]), steps[1..], handle, token, id, failure, now, outcome);
    }
  }

  predicate IsSweep(step: Step) {
    step.Expire? || step.Bury? || step.Resubmit? || step.Republish?
  }

  /** A sweep, a redrive, a purge or an edit that takes effect leaves nobody's claim on the row. */
  lemma OperationsEndClaims(cfg: Config, s: State, step: Step, id: Id, token: Token)
    requires s.Logged() && id in s.rows && RowOk(cfg, s.rows[id], s.log[id])
    requires IsSweep(step) || step.RedriveRow? || step.PurgeRow? || step.WriteEdit?
    requires var s1 := Apply(cfg, s, step); id in s1.rows && s1.rows[id] != s.rows[id]
    ensures !FenceHolds(Apply(cfg, s, step), token, id)
  {
  }

  /*** Where a row's status may go ***/

  /** A deleted row stays deleted: an id is inserted once. */
  lemma {:induction false} DeletedStaysDeleted(cfg: Config, s: State, steps: seq<Step>, id: Id)
    requires s.Logged() && id in s.log && id !in s.rows
    ensures id !in Exec(cfg, s, steps).rows
    decreases |steps|
  {
    if steps != [] {
      RowsComeOnce(cfg, s, steps[0], id);
      DeletedStaysDeleted(cfg, Apply(cfg, s, steps[0]), steps[1..], id);
    }
  }

  /** Over every continuation of a run a completed row is left exactly as it is, until it is deleted. */
  lemma {:induction false} CompletedIsFinal(cfg: Config, s: State, steps: seq<Step>, id: Id)
    requires Inv(cfg, s) && FreshRun(cfg, s, steps)
    requires id in s.rows && s.rows[id].doc.status == Completed
    ensures var s1 := Exec(cfg, s, steps); id in s1.rows ==> s1.rows[id] == s.rows[id]
    decreases |steps|
  {
    if steps != [] {
      var s1 := Apply(cfg, s, steps[0]);
      StepKeepsInv(cfg, s, steps[0]);
      StepEffect(cfg, s, steps[0], id);
      if id in s1.rows {
        CompletedIsFinal(cfg, s1, steps[1..], id);
      } else {
        DeletedStaysDeleted(cfg, s1, steps[1..], id);
      }
    }
  }

  /** The operator's steps that may take a row out of `status`. */
  predicate Releases(step: Step, status: Status, id: Id) {
    || (step.RedriveRow? && step.id == id)
    || (step.PurgeRow? && step.id == id && status == DeadLetter)
  }

  lemma OthersAreLeftAlone(cfg: Config, s: State, step: Step, id: Id)
    requires s.Logged() && id in s.rows && (step.RedriveRow? || step.PurgeRow?) && step.id != id
    ensures var s1 := Apply(cfg, s, step); id in s1.rows && s1.rows[id] == s.rows[id]
  {
  }

  lemma StaysGivenUp(cfg: Config, s: State, step: Step, id: Id)
    requires Inv(cfg, s) && Fresh(s, step) && id in s.rows && IsRedrivable(s.rows[id].doc.status)
    requires !Releases(step, s.rows[id].doc.status, id)
    ensures
      var s1 := Apply(cfg, s, step);
      && (id in s1.rows ==> s1.rows[id].doc.status == s.rows[id].doc.status)
      && (s.rows[id].doc.status == DeadLetter ==> id in s1.rows)
  {
    if (step.RedriveRow? || step.PurgeRow?) && step.id != id {
      OthersAreLeftAlone(cfg, s, step, id);
    } else {
      StepEffect(cfg, s, step, id);
      var s1 := Apply(cfg, s, step);
      if id in s1.rows {
        GivenUpMovesOnlyOnRelease(step, s.rows[id], s.log[id], s1.rows[id], s1.log[id]);
      }
    }
  }

  lemma GivenUpMovesOnlyOnRelease(step: Step, row: Row, log: Log, row1: Row, log1: Log)
    requires Effect(step, row, log, row1, log1) && IsRedrivable(row.doc.status)
    requires !step.RedriveRow? && (step.PurgeRow? ==> row.doc.status == Purged)
    ensures row1.doc.status == row.doc.status
  {
  }

  /** A dead letter waits for a purge or a redrive, a purged row for a redrive, however long the run. */
  lemma {:induction false} GivenUpUntilReleased(cfg: Config, s: State, steps: seq<Step>, id: Id)
    requires Inv(cfg, s) && FreshRun(cfg, s, steps)
    requires id in s.rows && IsRedrivable(s.rows[id].doc.status)
    requires forall i :: 0 <= i < |steps| ==> !Releases(steps[i], s.rows[id].doc.status, id)
    ensures
      var s1 := Exec(cfg, s, steps);
      && (id in s1.rows ==> s1.rows[id].doc.status == s.rows[id].doc.status)
      && (s.rows[id].doc.status == DeadLetter ==> id in s1.rows)
    decreases |steps|
  {
    if steps != [] {
      var s1 := Apply(cfg, s, steps[0]);
      StepKeepsInv(cfg, s, steps[0]);
      StaysGivenUp(cfg, s, steps[0], id);
      if id in s1.rows {
        GivenUpUntilReleased(cfg, s1, steps[1..], id);
      } else {
        DeletedStaysDeleted(cfg, s1, steps[1..], id);
      }
    }
  }

  /** In every state of every run, claims stand exactly on PROCESSING rows and deadlines on kept ones. */
  lemma ClaimsAndDeadlinesAreExact(cfg: Config, steps: seq<Step>, id: Id, now: Time)
    requires FreshRun(cfg, Init, steps) && id in Exec(cfg, Init, steps).rows
    ensures
      var doc := Exec(cfg, Init, steps).rows[id].doc;
      && (doc.claimedBy.Some? <==> doc.status == Processing)
      && (doc.claimExpiresAt.Some? <==> doc.status == Processing)
      && (doc.expireAt.Some? <==> doc.status == Completed || doc.status == Purged)
      && (TtlDeletes(Exec(cfg, Init, steps).rows[id], now) <==> doc.expireAt.Some? && doc.expireAt.value <= now)
  {
    RunKeepsInv(cfg, Init, steps);
    var s := Exec(cfg, Init, steps);
    assert RowOk(cfg, s.rows[id], s.log[id]);
  }

  /*** Attempts, history and deliveries ***/

  /**
   Since its last redrive a row has been claimed once for every attempt it counts,
   and once more if it is being processed or was completed; its history is the last
   ten of the errors recorded in that time.
   */
  lemma AttemptsCountClaims(cfg: Config, steps: seq<Step>, id: Id)
    requires FreshRun(cfg, Init, steps) && id in Exec(cfg, Init, steps).rows
    ensures
      var doc, log := Exec(cfg, Init, steps).rows[id].doc, Exec(cfg, Init, steps).log[id];
      && |log.since| == doc.completionAttempts + (if doc.status == Processing || doc.status == Completed then 1 else 0)
      && |log.since| <= cfg.maxRetries
      && doc.completionAttempts == log.failures
      && doc.attemptHistory == LastTen(log.recorded)
  {
    RunKeepsInv(cfg, Init, steps);
    var s := Exec(cfg, Init, steps);
    assert RowOk(cfg, s.rows[id], s.log[id]);
  }

  /** All the claims a row ever had: those since its last redrive, and at most the cap before each. */
  predicate ClaimsBounded(cfg: Config, log: Log) {
    |log.since| <= cfg.maxRetries && |log.claims| <= cfg.maxRetries * log.redrives + |log.since|
  }

  lemma LogEffectKeepsBound(cfg: Config, step: Step, log: Log, log1: Log)
    requires ClaimsBounded(cfg, log) && LogEffect(step, log, log1) && log.since <= log.claims
    requires |log1.since| <= cfg.maxRetries
    requires step.ClaimRow? ==> step.token !in log.claims
    ensures ClaimsBounded(cfg, log1)
  {
    if log1.redrives != log.redrives {
      assert cfg.maxRetries * (log.redrives + 1) == cfg.maxRetries * log.redrives + cfg.maxRetries;
    }
  }

  lemma StepKeepsBound(cfg: Config, s: State, step: Step, id: Id)
    requires Inv(cfg, s) && Fresh(s, step) && id in s.log && ClaimsBounded(cfg, s.log[id])
    ensures ClaimsBounded(cfg, Apply(cfg, s, step).log[id])
  {
    var s1 := Apply(cfg, s, step);
    StepLogEffect(cfg, s, step, id);
    assert LogOk(s.log[id]);
    if step.ClaimRow? && step.id == id {
      if id in s.rows {
        StepKeepsInv(cfg, s, step);
        assert RowOk(cfg, s1.rows[id], s1.log[id]);
      }
      LogEffectKeepsBound(cfg, step, s.log[id], s1.log[id]);
    } else if step.ClaimRow? {
      assert s1.log[id] == s.log[id];
    } else {
      LogEffectKeepsBound(cfg, step, s.log[id], s1.log[id]);
    }
  }

  lemma InsertedLogIsBounded(cfg: Config, s: State, step: Step, id: Id)
    requires s.Logged() && id !in s.log && id in Apply(cfg, s, step).log
    ensures ClaimsBounded(cfg, Apply(cfg, s, step).log[id])
  {
    var log := Apply(cfg, s, step).log[id];
    assert log.claims == {} && log.since == {} && log.redrives == 0;
  }

  lemma {:induction false} RunKeepsBound(cfg: Config, s: State, steps: seq<Step>)
    requires Inv(cfg, s) && FreshRun(cfg, s, steps)
    requires forall id :: id in s.log ==> ClaimsBounded(cfg, s.log[id])
    ensures var s1 := Exec(cfg, s, steps); forall id :: id in s1.log ==> ClaimsBounded(cfg, s1.log[id])
    decreases |steps|
  {
    if steps != [] {
      var s1 := Apply(cfg, s, steps[0]);
      forall id | id in s1.log
        ensures ClaimsBounded(cfg, s1.log[id])
      {
        if id in s.log {
          StepKeepsBound(cfg, s, steps[0], id);
        } else {
          InsertedLogIsBounded(cfg, s, steps[0], id);
        }
      }
      StepKeepsInv(cfg, s, steps[0]);
      RunKeepsBound(cfg, s1, steps[1..]);
      assert Exec(cfg, s, steps) == Exec(cfg, s1, steps[1..]);
    }
  }

  /** The step hands a copy of the row to its handler. */
  predicate DispatchesRow(s: State, step: Step, id: Id) {
    && step.Dispatch? && id in s.log
    && step.handle in s.work && s.work[step.handle].stage.Waiting? && s.work[step.handle].id == id
  }

  /** How many of a run's steps do. */
  function Dispatches(cfg: Config, s: State, steps: seq<Step>, id: Id): nat
    requires s.Logged()
    decreases |steps|
  {
    if steps == [] then 0
    else (if DispatchesRow(s, steps[0], id) then 1 else 0) + Dispatches(cfg, Apply(cfg, s, steps[0]), steps[1..], id)
  }

  function DeliveredOf(s: State, id: Id): set<Token> {
    if id in s.log then s.log[id].delivered else {}
  }

  lemma OtherStepsDeliverNothing(cfg: Config, s: State, step: Step, id: Id)
    requires s.Logged() && !DispatchesRow(s, step, id)
    ensures DeliveredOf(Apply(cfg, s, step), id) == DeliveredOf(s, id)
  {
  }

  /** No claim is dispatched twice: every dispatch is of a token not delivered before. */
  lemma StepCountsDelivery(cfg: Config, s: State, step: Step, id: Id)
    requires Inv(cfg, s)
    ensures |DeliveredOf(Apply(cfg, s, step), id)| ==
      |DeliveredOf(s, id)| + (if DispatchesRow(s, step, id) then 1 else 0)
  {
    if DispatchesRow(s, step, id) {
      assert WorkOk(cfg, s, s.work[step.handle]);
    } else {
      OtherStepsDeliverNothing(cfg, s, step, id);
    }
  }

  lemma {:induction false} DispatchesAreDelivered(cfg: Config, s: State, steps: seq<Step>, id: Id)
    requires Inv(cfg, s) && FreshRun(cfg, s, steps)
    ensures |DeliveredOf(Exec(cfg, s, steps), id)| == |DeliveredOf(s, id)| + Dispatches(cfg, s, steps, id)
    decreases |steps|
  {
    if steps != [] {
      StepCountsDelivery(cfg, s, steps[0], id);
      StepKeepsInv(cfg, s, steps[0]);
      DispatchesAreDelivered(cfg, Apply(cfg, s, steps[0]), steps[1..], id);
    }
  }

  /**
   Over a whole run a row is dispatched once per claim at most, so at most the cap, and as often
   again for every redrive.
   */
  lemma DeliveriesAreBounded(cfg: Config, steps: seq<Step>, id: Id)
    requires FreshRun(cfg, Init, steps) && id in Exec(cfg, Init, steps).log
    ensures
      var log := Exec(cfg, Init, steps).log[id];
      Dispatches(cfg, Init, steps, id) <= |log.claims| <= cfg.maxRetries * (log.redrives + 1)
  {
    RunKeepsInv(cfg, Init, steps);
    RunKeepsBound(cfg, Init, steps);
    DispatchesAreDelivered(cfg, Init, steps, id);
    var log := Exec(cfg, Init, steps).log[id];
    assert LogOk(log) && ClaimsBounded(cfg, log);
    SubsetIsNoLarger(log.delivered, log.claims);
    assert cfg.maxRetries * (log.redrives + 1) == cfg.maxRetries * log.redrives + cfg.maxRetries;
  }

  /*** Revisions and payloads ***/

  predicate CountsGrow(log: Log, log1: Log) {
    && log1.inserted == log.inserted
    && log.edits <= log1.edits && log.purges <= log1.purges && log.redrives <= log1.redrives
  }

  /**
   Over every run the operators' counts never fall, and a row whose edits did not
   grow holds the same event: no poller's write changes one, though each writes it back.
   */
  lemma {:induction false} RunCountsGrow(cfg: Config, s: State, steps: seq<Step>, id: Id)
    requires Inv(cfg, s) && FreshRun(cfg, s, steps) && id in s.log
    ensures CountsGrow(s.log[id], Exec(cfg, s, steps).log[id])
    ensures
      var s1 := Exec(cfg, s, steps);
      id in s.rows && id in s1.rows && s1.log[id].edits == s.log[id].edits ==>
        s1.rows[id].doc.event == s.rows[id].doc.event
    decreases |steps|
  {
    if steps != [] {
      var s1 := Apply(cfg, s, steps[0]);
      StepKeepsInv(cfg, s, steps[0]);
      StepLogEffect(cfg, s, steps[0], id);
      RunCountsGrow(cfg, s1, steps[1..], id);
      if id in s.rows {
        StepEffect(cfg, s, steps[0], id);
        if id !in s1.rows {
          DeletedStaysDeleted(cfg, s1, steps[1..], id);
        }
      }
    }
  }

  /**
   The revision counts the row's edits, purges and redrives; a row once edited keeps
   the payload it was inserted with, and one never edited still holds it.
   */
  lemma RevisionCountsOperations(cfg: Config, steps: seq<Step>, id: Id)
    requires FreshRun(cfg, Init, steps) && id in Exec(cfg, Init, steps).rows
    ensures
      var row, log := Exec(cfg, Init, steps).rows[id], Exec(cfg, Init, steps).log[id];
      && RevisionOf(row) == log.edits + log.purges + log.redrives
      && (row.lastEdit.None? ==> row.doc.event == log.inserted)
      && (row.lastEdit.Some? ==> row.originalPayload == Some(log.inserted))
  {
    RunKeepsInv(cfg, Init, steps);
    var s := Exec(cfg, Init, steps);
    assert RowOk(cfg, s.rows[id], s.log[id]);
  }

  /**
   An edit made against the revision an editor was shown lands only if the row was
   not edited, purged or redriven in between, and so still holds the payload shown.
   */
  lemma EditLandsOnlyOnWhatWasShown(cfg: Config, s: State, steps: seq<Step>, editor: nat)
    requires Inv(cfg, s) && FreshRun(cfg, s, steps)
    requires var s1 := Exec(cfg, s, steps);
      EditLands(s1, editor) && s1.pending[editor].id in s.rows &&
      s1.pending[editor].revision == RevisionOf(s.rows[s1.pending[editor].id])
    ensures
      var s1 := Exec(cfg, s, steps);
      var id := s1.pending[editor].id;
      && s1.log[id].edits == s.log[id].edits
      && s1.log[id].purges == s.log[id].purges
      && s1.log[id].redrives == s.log[id].redrives
      && s1.rows[id].doc.event == s.rows[id].doc.event
  {
    var s1 := Exec(cfg, s, steps);
    var id := s1.pending[editor].id;
    RunKeepsInv(cfg, s, steps);
    RunCountsGrow(cfg, s, steps, id);
    assert RowOk(cfg, s.rows[id], s.log[id]) && RowOk(cfg, s1.rows[id], s1.log[id]);
  }

  /*** Bulk sweeps ***/

  datatype Sweep = Expiring(now: Time) | Burying | Resubmitting | Republishing

  function SweepRow(cfg: Config, sweep: Sweep, row: Row): Row {
    match sweep
    case Expiring(now) => SweepExpired(row, now)
    case Burying => SweepDead(cfg, row)
    case Resubmitting => SweepFailed(row)
    case Republishing => SweepResubmitted(row)
  }

  function SweepStep(sweep: Sweep, id: Id): Step {
    match sweep
    case Expiring(now) => Expire(id, now)
    case Burying => Bury(id)
    case Resubmitting => Resubmit(id)
    case Republishing => Republish(id)
  }

  lemma SweepStepRows(cfg: Config, s: State, sweep: Sweep, id: Id)
    requires s.Logged() && id in s.rows
    ensures Apply(cfg, s, SweepStep(sweep, id)).rows == s.rows[id := SweepRow(cfg, sweep, s.rows[id])]
  {
    assert s.rows[id := s.rows[id]] == s.rows;
  }

  /** An update of many rows is a run of one-row steps, so what holds over runs holds over it. */
  lemma {:induction false} BulkSweepIsARun(cfg: Config, s: State, sweep: Sweep, ids: set<Id>) returns (steps: seq<Step>)
    requires s.Logged() && ids <= s.rows.Keys
    ensures FreshRun(cfg, s, steps)
    ensures Exec(cfg, s, steps).rows ==
      map id | id in s.rows :: if id in ids then SweepRow(cfg, sweep, s.rows[id]) else s.rows[id]
    decreases |ids|
  {
    if ids == {} {
      steps := [];
      assert s.rows == map id | id in s.rows :: s.rows[id];
    } else {
      var id :| id in ids;
      var step := SweepStep(sweep, id);
      var s1 := Apply(cfg, s, step);
      SweepStepRows(cfg, s, sweep, id);
      assert |ids - {id}| < |ids|;
      var rest := BulkSweepIsARun(cfg, s1, sweep, ids - {id});
      ExecStep(cfg, s, step, rest);
      steps := [step] + rest;
    }
  }

  /*** Why tokens must be fresh ***/

  /**
   A claim keeps the row's count of attempts exact exactly if its token has not claimed the row
   since the last redrive.
   */
  lemma ClaimIsCountedExactlyWhenNew(cfg: Config, row: Row, log: Log, token: Token, now: Time)
    requires RowOk(cfg, row, log) && Claimable(cfg, row)
    ensures RowOk(cfg, Claim(cfg, row, token, now), log.Claim(token)) <==> token !in log.since
  {
    if token in log.since {
      assert log.Claim(token).since == log.since;
    }
  }

  const Cap := Config(Inbox, 3, 100, 1000)

  /**
   A claim loop that outlives its own claim and takes the same row again holds two
   copies under one token; writing the older one back loses the attempt in between.
   */
  lemma ReclaimUnderOneTokenLosesAnAttempt()
    ensures
      var event := Payload(Some(5), "{}");
      var steps := [
        Insert(1, event, "ref", 0), ClaimRow(0, 7, 1, 0), Expire(1, 200), Resubmit(1), Republish(1),
        ClaimRow(1, 7, 1, 300), Dispatch(0), WriteComplete(0, 310, Acknowledged)];
      var s := Exec(Cap, Init, steps);
      && !FreshRun(Cap, Init, steps)
      && 1 in s.rows
      && s.rows[1].doc.completionAttempts == 0 && s.log[1].failures == 1
      && s.rows[1].doc.attemptHistory == [] && |s.log[1].recorded| == 1
  {
    var event := Payload(Some(5), "{}");
    var before := [Insert(1, event, "ref", 0), ClaimRow(0, 7, 1, 0), Expire(1, 200), Resubmit(1), Republish(1)];
    var after := [ClaimRow(1, 7, 1, 300), Dispatch(0), WriteComplete(0, 310, Acknowledged)];
    var s := SweptClaim(before);
    ExecAppend(Cap, Init, before, after);
    StaleCopyWins(s, after);
    assert before + after == [
        Insert(1, event, "ref", 0), ClaimRow(0, 7, 1, 0), Expire(1, 200), Resubmit(1), Republish(1),
        ClaimRow(1, 7, 1, 300), Dispatch(0), WriteComplete(0, 310, Acknowledged)];
  }

  /** The second half: claimed again under the same token, and the older copy written back. */
  lemma StaleCopyWins(s: State, after: seq<Step>)
    requires after == [ClaimRow(1, 7, 1, 300), Dispatch(0), WriteComplete(0, 310, Acknowledged)]
    requires s.Logged() && 1 in s.rows && Claimable(Cap, s.rows[1]) && s.log[1].claims == {7}
    requires s.work.Keys == {0} && s.work[0].token == 7 && s.work[0].id == 1 && s.work[0].stage.Waiting?
    ensures !FreshRun(Cap, s, after)
    ensures
      var s1 := Exec(Cap, s, after);
      && 1 in s1.rows && s1.log[1].failures == s.log[1].failures && s1.log[1].recorded == s.log[1].recorded
      && s1.rows[1].doc.completionAttempts == s.work[0].copy.completionAttempts
      && s1.rows[1].doc.attemptHistory == s.work[0].copy.attemptHistory
  {
    var s1 := Apply(Cap, s, after[0]);
    ExecStep(Cap, s, after[0], after[1..]);
    assert !Fresh(s, after[0]);
    assert [after[0]] + after[1..] == after;
    DispatchedCopyIsWritten(s, s1, after[1..]);
  }

  lemma DispatchedCopyIsWritten(s: State, s1: State, steps: seq<Step>)
    requires steps == [Dispatch(0), WriteComplete(0, 310, Acknowledged)] && s1.Logged()
    requires 0 in s.work && 0 in s1.work && s1.work[0] == s.work[0] && 1 in s.log && 1 in s1.rows
    requires s1.log[1].failures == s.log[1].failures && s1.log[1].recorded == s.log[1].recorded
    requires s.work[0].token == 7 && s.work[0].id == 1 && s.work[0].stage.Waiting?
    requires s1.rows[1].doc.claimedBy == Some(7)
    ensures
      var s3 := Exec(Cap, s1, steps);
      && 1 in s3.rows && s3.log[1].failures == s.log[1].failures && s3.log[1].recorded == s.log[1].recorded
      && s3.rows[1].doc.completionAttempts == s.work[0].copy.completionAttempts
      && s3.rows[1].doc.attemptHistory == s.work[0].copy.attemptHistory
  {
    var s2 := Apply(Cap, s1, steps[0]);
    ExecStep(Cap, s1, steps[0], steps[1..]);
    ExecStep(Cap, s2, steps[1], []);
    assert [steps[0]] + steps[1..] == steps && [steps[1]] + [] == steps[1..];
  }

  /** The first half of that run: claimed, expired, and published once more. */
  lemma SweptClaim(before: seq<Step>) returns (s: State)
    requires before == [
      Insert(1, Payload(Some(5), "{}"), "ref", 0), ClaimRow(0, 7, 1, 0), Expire(1, 200), Resubmit(1), Republish(1)]
    ensures s == Exec(Cap, Init, before) && s.Logged()
    ensures 1 in s.rows && s.rows[1].doc.completionAttempts == 1 && Claimable(Cap, s.rows[1])
    ensures 1 in s.log && s.log[1].claims == {7} && s.log[1].failures == 1 && |s.log[1].recorded| == 1
    ensures s.work.Keys == {0} && s.work[0].token == 7 && s.work[0].id == 1 && s.work[0].stage.Waiting?
    ensures s.work[0].copy.completionAttempts == 0 && s.work[0].copy.attemptHistory == []
  {
    var s3 := ExpiredClaim(before[..3]);
    assert before == before[..3] + before[3..];
    ExecAppend(Cap, Init, before[..3], before[3..]);
    var s4 := Apply(Cap, s3, before[3]);
    ExecStep(Cap, s3, before[3], before[4..]);
    s := Apply(Cap, s4, before[4]);
    ExecStep(Cap, s4, before[4], []);
    assert [before[3]] + before[4..] == before[3..] && [before[4]] + [] == before[4..];
  }

  lemma ExpiredClaim(before: seq<Step>) returns (s: State)
    requires before == [Insert(1, Payload(Some(5), "{}"), "ref", 0), ClaimRow(0, 7, 1, 0), Expire(1, 200)]
    ensures s == Exec(Cap, Init, before) && s.Logged()
    ensures 1 in s.rows && s.rows[1].doc.completionAttempts == 1 && s.rows[1].doc.status == Failed &&
      s.rows[1].doc.claimedBy.None?
    ensures s.rows[1].doc.claimExpiresAt.None?
    ensures 1 in s.log && s.log[1].claims == {7} && s.log[1].failures == 1 && |s.log[1].recorded| == 1
    ensures s.work.Keys == {0} && s.work[0].token == 7 && s.work[0].id == 1 && s.work[0].stage.Waiting?
    ensures s.work[0].copy.completionAttempts == 0 && s.work[0].copy.attemptHistory == []
  {
    var s1 := Apply(Cap, Init, before[0]);
    ExecStep(Cap, Init, before[0], before[1..]);
    var s2 := Apply(Cap, s1, before[1]);
    ExecStep(Cap, s1, before[1], before[2..]);
    s := Apply(Cap, s2, before[2]);
    ExecStep(Cap, s2, before[2], []);
    assert [before[0]] + before[1..] == before && [before[1]] + before[2..] == before[1..] &&
      [before[2]] + [] == before[2..];
  }

  /** Two runs, one after the other. */
  lemma {:induction false} ExecAppend(cfg: Config, s: State, steps: seq<Step>, more: seq<Step>)
    requires s.Logged()
    ensures Exec(cfg, s, steps + more) == Exec(cfg, Exec(cfg, s, steps), more)
    ensures FreshRun(cfg, s, steps + more) ==> FreshRun(cfg, Exec(cfg, s, steps), more)
    decreases |steps|
  {
    if steps == [] {
      assert steps + more == more;
    } else {
      assert (steps + more)[1..] == steps[1..] + more;
      ExecAppend(cfg, Apply(cfg, s, steps[0]), steps[1..], more);
    }
  }

  lemma ExecStep(cfg: Config, s: State, step: Step, rest: seq<Step>)
    requires s.Logged()
    ensures Exec(cfg, s, [step] + rest) == Exec(cfg, Apply(cfg, s, step), rest)
    ensures FreshRun(cfg, s, [step] + rest) == (Fresh(s, step) && FreshRun(cfg, Apply(cfg, s, step), rest))
  {
    assert ([step] + rest)[1..] == rest;
  }
}
