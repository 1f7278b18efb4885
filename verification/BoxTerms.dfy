/**
 What each step does to a row, and when: the payload it holds, the deadlines it is
 under, and exactly which rows a sweep, an operator or the TTL index moves.
 */
module BoxTerms {
  import opened Wrappers
  import opened BoxRows
  import opened BoxProtocol
  import opened BoxRuns

  /*** What an observer writes down of one row ***/

  /** The payload last stored, and the times of the insert, of the last claim, and of the last completion or purge. */
  datatype Terms = Terms(payload: Payload, segregationRef: string, insertedAt: Time, claimedAt: Time, closedAt: Time)

  /** A poller takes the row: it is published, free and below the cap. */
  predicate Claims(cfg: Config, s: State, step: Step, id: Id) {
    && step.ClaimRow? && step.id == id && step.handle !in s.work && id in s.rows
    && s.rows[id].doc.status == Published && s.rows[id].doc.claimedBy == None
    && s.rows[id].doc.completionAttempts < cfg.maxRetries
  }

  /** A completing write reaches the row under its claim. */
  predicate Completes(s: State, step: Step, id: Id) {
    && step.WriteComplete? && !step.outcome.Lost?
    && step.handle in s.work && s.work[step.handle].stage.Sent? && s.work[step.handle].id == id
    && id in s.rows && s.rows[id].doc.claimedBy == Some(s.work[step.handle].token)
  }

  predicate Purges(s: State, step: Step, id: Id) {
    step.PurgeRow? && step.id == id && id in s.rows && s.rows[id].doc.status == DeadLetter
  }

  predicate Redrives(s: State, step: Step, id: Id) {
    && step.RedriveRow? && step.id == id && id in s.rows
    && (s.rows[id].doc.status == DeadLetter || s.rows[id].doc.status == Purged)
  }

  /** An edit's write finds the row where its read left it. */
  predicate Edits(s: State, step: Step, id: Id) {
    && step.WriteEdit? && step.editor in s.pending && s.pending[step.editor].id == id && id in s.rows
    && (s.rows[id].doc.status == DeadLetter || s.rows[id].doc.status == Purged)
    && RevisionOf(s.rows[id]) == s.pending[step.editor].revision
  }

  function Observed(cfg: Config, s: State, step: Step, id: Id, t: Terms): Terms {
    if step.Insert? && step.id == id && id !in s.log then Terms(step.event, step.segregationRef, step.now, 0, 0)
    else if Claims(cfg, s, step, id) then t.(claimedAt := step.now)
    else if Completes(s, step, id) || Purges(s, step, id) then t.(closedAt := step.now)
    else if Edits(s, step, id) then t.(payload := s.pending[step.editor].event)
    else t
  }

  /**
   The row is on the terms observed: it holds the payload last stored and is ordered by
   that payload's time, or by its own insert in the outbox; a claim ends its time after it
   was made, and a closed row goes its retention after it was closed.
   */
  predicate OnTerms(cfg: Config, row: Row, t: Terms) {
    var doc := row.doc;
    && doc.event == t.payload && doc.segregationRef == t.segregationRef
    && (cfg.kind.Outbox? ==> doc.order == t.insertedAt)
    && (cfg.kind.Inbox? && t.payload.time.Some? ==> doc.order == t.payload.time.value)
    && (doc.status == Processing ==>
          doc.claimedAt == Some(t.claimedAt) && doc.claimExpiresAt == Some(t.claimedAt + cfg.expiresMs))
    && (doc.status == Completed || doc.status == Purged ==> doc.expireAt == Some(t.closedAt + cfg.retentionMs))
  }

  /*** What each step does, exactly ***/

  /** A claim is of that row alone and for the configured time. */
  lemma ClaimsExactly(cfg: Config, s: State, step: Step, id: Id)
    requires s.Logged() && step.ClaimRow? && id in s.rows
    ensures
      var s1 := Apply(cfg, s, step);
      && id in s1.rows
      && s1.rows[id] ==
        if Claims(cfg, s, step, id) then
          s.rows[id].(doc := s.rows[id].doc.(
            status := Processing, claimedBy := Some(step.token),
            claimedAt := Some(step.now), claimExpiresAt := Some(step.now + cfg.expiresMs)))
        else s.rows[id]
    ensures Claims(cfg, s, step, id) ==>
      step.handle in Apply(cfg, s, step).work && Apply(cfg, s, step).work[step.handle].stage == Waiting
  {
  }

  /** The claim has outlived its time. */
  predicate IsOverdue(cfg: Config, row: Row, t: Terms, now: Time) {
    row.doc.status == Processing && t.claimedAt + cfg.expiresMs < now
  }

  /** The expiry sweep takes rows whose claim has outlived its time and no other; it counts the attempt and says why. */
  lemma ExpiresExactly(cfg: Config, s: State, id: Id, now: Time, t: Terms)
    requires s.Logged() && id in s.rows && RowOk(cfg, s.rows[id], s.log[id]) && OnTerms(cfg, s.rows[id], t)
    ensures
      var s1 := Apply(cfg, s, Expire(id, now));
      var row := s.rows[id];
      && id in s1.rows
      && s1.rows[id] ==
        if IsOverdue(cfg, row, t, now) then
          row.(doc := row.doc.(
            status := Failed, completionAttempts := row.doc.completionAttempts + 1,
            lastError := Some(ClaimExpired(now)),
            attemptHistory := LastTen(s.log[id].recorded + [ClaimExpired(now)]),
            claimedBy := None, claimedAt := None, claimExpiresAt := None))
        else row
  {
    if IsOverdue(cfg, s.rows[id], t, now) {
      TrimThenAppend(s.log[id].recorded, ClaimExpired(now));
    }
  }

  /** The row at another status, with no claim and nothing else changed. */
  function At(row: Row, status: Status): Row {
    row.(doc := row.doc.(status := status, claimedBy := None, claimedAt := None, claimExpiresAt := None))
  }

  /** The dead-letter sweep takes rows that have used up their attempts and are not closed, and no other. */
  lemma BuriesExactly(cfg: Config, s: State, id: Id)
    requires s.Logged() && id in s.rows && RowOk(cfg, s.rows[id], s.log[id])
    ensures
      var row := s.rows[id];
      id in Apply(cfg, s, Bury(id)).rows &&
      Apply(cfg, s, Bury(id)).rows[id] ==
        if s.log[id].failures >= cfg.maxRetries && row.doc.status in {Published, Failed, Resubmitted}
        then At(row, DeadLetter) else row
  {
  }

  /** Failed rows are resubmitted and resubmitted ones published, each sweep taking its own alone. */
  lemma MovesOnExactly(cfg: Config, s: State, id: Id)
    requires s.Logged() && id in s.rows
    ensures id in Apply(cfg, s, Resubmit(id)).rows && id in Apply(cfg, s, Republish(id)).rows
    ensures Apply(cfg, s, Resubmit(id)).rows[id] ==
      if s.rows[id].doc.status == Failed then At(s.rows[id], Resubmitted) else s.rows[id]
    ensures Apply(cfg, s, Republish(id)).rows[id] ==
      if s.rows[id].doc.status == Resubmitted then At(s.rows[id], Published) else s.rows[id]
  {
  }

  /** A redrive starts the row over; the payload and the last error stay. */
  lemma RedrivesExactly(cfg: Config, s: State, step: Step, id: Id)
    requires s.Logged() && id in s.rows && step.RedriveRow?
    ensures
      var row := s.rows[id];
      id in Apply(cfg, s, step).rows &&
      Apply(cfg, s, step).rows[id] ==
        if Redrives(s, step, id) then
          row.(
            doc := row.doc.(
              status := Resubmitted, retryable := true, completionAttempts := 0, attemptHistory := [],
              lastRedrive := Some(step.now), expireAt := None,
              claimedBy := None, claimedAt := None, claimExpiresAt := None),
            payloadRevision := Some(RevisionOf(row) + 1))
        else row
  {
  }

  /** A purge keeps everything of a dead letter but sets its deletion date. */
  lemma PurgesExactly(cfg: Config, s: State, step: Step, id: Id)
    requires s.Logged() && id in s.rows && step.PurgeRow?
    ensures
      var row := s.rows[id];
      id in Apply(cfg, s, step).rows &&
      Apply(cfg, s, step).rows[id] ==
        if Purges(s, step, id) then
          row.(
            doc := row.doc.(status := Purged, expireAt := Some(step.now + cfg.retentionMs)),
            lastPurge := Some(step.now),
            payloadRevision := Some(RevisionOf(row) + 1))
        else row
  {
  }

  /**
   An edit lands exactly if the row is redrivable and still at the revision read; then the
   row holds the payload given, in the inbox in that payload's place, under the next
   revision, with the original kept as it was read or, if none was, as it was.
   */
  lemma EditsExactly(cfg: Config, s: State, step: Step, id: Id)
    requires s.Logged() && id in s.rows && step.WriteEdit?
    ensures
      var row := s.rows[id];
      id in Apply(cfg, s, step).rows &&
      Apply(cfg, s, step).rows[id] ==
        if Edits(s, step, id) then
          var e := s.pending[step.editor];
          row.(
            doc := row.doc.(
              event := e.event,
              order := if cfg.kind.Inbox? then e.event.time.GetOr(step.now) else row.doc.order),
            payloadRevision := Some(e.revision + 1),
            lastEdit := Some(step.now),
            originalPayload := if e.original.Some? then e.original else row.originalPayload)
        else row
  {
  }

  /**
   Reading for an edit succeeds exactly if the row is redrivable and at the revision the
   editor was shown; it keeps the payload as the original unless an edit has kept one.
   */
  lemma ReadsExactly(cfg: Config, s: State, editor: nat, id: Id, revision: nat, event: Payload)
    requires s.Logged()
    ensures
      var s1 := Apply(cfg, s, ReadForEdit(editor, id, revision, event));
      var due := id in s.rows && s.rows[id].doc.status in {DeadLetter, Purged} && RevisionOf(s.rows[id]) == revision;
      && s1.rows == s.rows
      && (!due ==> s1 == s)
      && (due ==>
            var original := if s.rows[id].lastEdit.Some? then None else Some(s.rows[id].doc.event);
            editor in s1.pending && s1.pending[editor] == PendingEdit(id, revision, event, original))
  {
  }

  /** The TTL index deletes closed rows whose retention has passed, and no other. */
  lemma DeletesExactly(cfg: Config, s: State, id: Id, now: Time, t: Terms)
    requires s.Logged() && id in s.rows && RowOk(cfg, s.rows[id], s.log[id]) && OnTerms(cfg, s.rows[id], t)
    ensures id !in Apply(cfg, s, Ttl(id, now)).rows <==>
      s.rows[id].doc.status in {Completed, Purged} && t.closedAt + cfg.retentionMs <= now
    ensures id in Apply(cfg, s, Ttl(id, now)).rows ==> Apply(cfg, s, Ttl(id, now)) == s
  {
  }

  /** A new row is published, unclaimed and untried, and holds what it was given. */
  lemma InsertsExactly(cfg: Config, s: State, step: Step)
    requires s.Logged() && step.Insert? && step.id !in s.log
    ensures
      var s1 := Apply(cfg, s, step);
      && step.id in s1.rows
      && var row := s1.rows[step.id];
         && row.doc.status == Published && row.doc.claimedBy == None && row.doc.completionAttempts == 0
         && row.doc.attemptHistory == [] && row.doc.retryable
         && row.doc.event == step.event && row.doc.segregationRef == step.segregationRef
         && row.doc.order == (if cfg.kind.Inbox? then step.event.time.GetOr(step.now) else step.now)
         && row.lastEdit == None && row.lastPurge == None && row.payloadRevision == None
  {
  }

  /*** The terms over every run ***/

  lemma UntouchedStaysOnTerms(cfg: Config, s: State, step: Step, id: Id, t: Terms)
    requires s.Logged() && id in s.rows && OnTerms(cfg, s.rows[id], t)
    requires var s1 := Apply(cfg, s, step); id in s1.rows && s1.rows[id] == s.rows[id]
    requires !Claims(cfg, s, step, id) && !Completes(s, step, id) && !Purges(s, step, id) && !Edits(s, step, id)
    ensures OnTerms(cfg, Apply(cfg, s, step).rows[id], Observed(cfg, s, step, id, t))
  {
  }

  lemma CompletionOnTerms(cfg: Config, s: State, step: Step, id: Id, t: Terms)
    requires Inv(cfg, s) && id in s.rows && OnTerms(cfg, s.rows[id], t) && step.WriteComplete?
    ensures id in Apply(cfg, s, step).rows
    ensures OnTerms(cfg, Apply(cfg, s, step).rows[id], Observed(cfg, s, step, id, t))
  {
    if Completes(s, step, id) {
      LandedOnTerms(cfg, s, step, id, t);
    } else {
      if CanWriteComplete(s, step.handle) {
        CompletingWriteActsOnItsOwnClaim(cfg, s, step.handle, step.now, step.outcome);
      }
      UntouchedStaysOnTerms(cfg, s, step, id, t);
    }
  }

  lemma LandedOnTerms(cfg: Config, s: State, step: Step, id: Id, t: Terms)
    requires Inv(cfg, s) && id in s.rows && OnTerms(cfg, s.rows[id], t) && Completes(s, step, id)
    ensures id in Apply(cfg, s, step).rows
    ensures OnTerms(cfg, Apply(cfg, s, step).rows[id], t.(closedAt := step.now))
  {
    CompletingWriteActsOnItsOwnClaim(cfg, s, step.handle, step.now, step.outcome);
  }

  lemma FailureOnTerms(cfg: Config, s: State, step: Step, id: Id, t: Terms)
    requires Inv(cfg, s) && id in s.rows && OnTerms(cfg, s.rows[id], t) && step.WriteFailed?
    ensures OnTerms(cfg, Apply(cfg, s, step).rows[id], Observed(cfg, s, step, id, t))
  {
    if CanWriteFailed(s, step.handle) {
      FailingWriteActsOnItsOwnClaim(cfg, s, step.handle, step.failure, step.now, step.outcome);
    }
  }

  lemma ReleasedOnTerms(cfg: Config, row: Row, status: Status, t: Terms)
    requires OnTerms(cfg, row, t) && status in {Published, Resubmitted, DeadLetter}
    ensures OnTerms(cfg, At(row, status), t)
  {
  }

  lemma SweepOnTerms(cfg: Config, s: State, step: Step, id: Id, t: Terms)
    requires s.Logged() && id in s.rows && RowOk(cfg, s.rows[id], s.log[id]) && OnTerms(cfg, s.rows[id], t)
    requires IsSweep(step) && step.id == id
    ensures id in Apply(cfg, s, step).rows && OnTerms(cfg, Apply(cfg, s, step).rows[id], t)
  {
    if step.Expire? {
      ExpiresExactly(cfg, s, id, step.now, t);
    } else if step.Bury? {
      BuriesExactly(cfg, s, id);
      ReleasedOnTerms(cfg, s.rows[id], DeadLetter, t);
    } else {
      MovesOnExactly(cfg, s, id);
      ReleasedOnTerms(cfg, s.rows[id], if step.Resubmit? then Resubmitted else Published, t);
    }
  }

  lemma OthersAreNotSwept(cfg: Config, s: State, step: Step, id: Id)
    requires s.Logged() && id in s.rows && IsSweep(step) && step.id != id
    ensures id in Apply(cfg, s, step).rows && Apply(cfg, s, step).rows[id] == s.rows[id]
  {
  }

  lemma OperatorOnTerms(cfg: Config, s: State, step: Step, id: Id, t: Terms)
    requires s.Logged() && id in s.rows && OnTerms(cfg, s.rows[id], t)
    requires step.RedriveRow? || step.PurgeRow? || step.WriteEdit? || step.ClaimRow?
    ensures id in Apply(cfg, s, step).rows
    ensures OnTerms(cfg, Apply(cfg, s, step).rows[id], Observed(cfg, s, step, id, t))
  {
    if step.RedriveRow? {
      RedrivesExactly(cfg, s, step, id);
    } else if step.PurgeRow? {
      PurgesExactly(cfg, s, step, id);
    } else if step.WriteEdit? {
      EditsExactly(cfg, s, step, id);
    } else {
      ClaimsExactly(cfg, s, step, id);
    }
  }

  lemma StepKeepsTerms(cfg: Config, s: State, step: Step, id: Id, t: Terms)
    requires Inv(cfg, s) && (id in s.rows ==> OnTerms(cfg, s.rows[id], t))
    ensures
      var s1 := Apply(cfg, s, step);
      id in s1.rows ==> OnTerms(cfg, s1.rows[id], Observed(cfg, s, step, id, t))
  {
    if id !in s.rows {
      NewRowOnTerms(cfg, s, step, id, t);
    } else if step.WriteComplete? {
      CompletionOnTerms(cfg, s, step, id, t);
    } else if step.WriteFailed? {
      FailureOnTerms(cfg, s, step, id, t);
    } else if IsSweep(step) {
      assert RowOk(cfg, s.rows[id], s.log[id]);
      AnySweepOnTerms(cfg, s, step, id, t);
    } else if step.RedriveRow? || step.PurgeRow? || step.WriteEdit? || step.ClaimRow? {
      OperatorOnTerms(cfg, s, step, id, t);
    } else {
      BystanderOnTerms(cfg, s, step, id, t);
    }
  }

  lemma AnySweepOnTerms(cfg: Config, s: State, step: Step, id: Id, t: Terms)
    requires s.Logged() && id in s.rows && RowOk(cfg, s.rows[id], s.log[id]) && OnTerms(cfg, s.rows[id], t)
    requires IsSweep(step)
    ensures id in Apply(cfg, s, step).rows
    ensures OnTerms(cfg, Apply(cfg, s, step).rows[id], Observed(cfg, s, step, id, t))
  {
    assert Observed(cfg, s, step, id, t) == t by {
      SweepsAreUnremarked(cfg, s, step, id, t);
    }
    if step.id == id {
      SweepOnTerms(cfg, s, step, id, t);
    } else {
      OthersAreNotSwept(cfg, s, step, id);
    }
  }

  lemma SweepsAreUnremarked(cfg: Config, s: State, step: Step, id: Id, t: Terms)
    requires IsSweep(step)
    ensures Observed(cfg, s, step, id, t) == t
  {
  }

  lemma BystanderOnTerms(cfg: Config, s: State, step: Step, id: Id, t: Terms)
    requires s.Logged() && id in s.rows && OnTerms(cfg, s.rows[id], t)
    requires step.Insert? || step.Dispatch? || step.Crash? || step.ReadForEdit? || step.Ttl?
    ensures
      var s1 := Apply(cfg, s, step);
      id in s1.rows ==> OnTerms(cfg, s1.rows[id], Observed(cfg, s, step, id, t))
  {
    if id in Apply(cfg, s, step).rows {
      UntouchedStaysOnTerms(cfg, s, step, id, t);
    }
  }

  lemma NewRowOnTerms(cfg: Config, s: State, step: Step, id: Id, t: Terms)
    requires s.Logged() && id !in s.rows
    ensures
      var s1 := Apply(cfg, s, step);
      id in s1.rows ==> OnTerms(cfg, s1.rows[id], Observed(cfg, s, step, id, t))
  {
    if step.Insert? && step.id == id && id !in s.log {
      InsertsExactly(cfg, s, step);
    }
  }

  /** What the observer has written down after a run. */
  function ObservedRun(cfg: Config, s: State, steps: seq<Step>, id: Id, t: Terms): Terms
    requires s.Logged()
    decreases |steps|
  {
    if steps == [] then t
    else ObservedRun(cfg, Apply(cfg, s, steps[0]), steps[1..], id, Observed(cfg, s, steps[0], id, t))
  }

  /** In every state of every run each row is on its terms. */
  lemma {:induction false} RunKeepsTerms(cfg: Config, s: State, steps: seq<Step>, id: Id, t: Terms)
    requires Inv(cfg, s) && FreshRun(cfg, s, steps) && (id in s.rows ==> OnTerms(cfg, s.rows[id], t))
    ensures
      var s1 := Exec(cfg, s, steps);
      id in s1.rows ==> OnTerms(cfg, s1.rows[id], ObservedRun(cfg, s, steps, id, t))
    decreases |steps|
  {
    if steps != [] {
      StepKeepsTerms(cfg, s, steps[0], id, t);
      StepKeepsInv(cfg, s, steps[0]);
      RunKeepsTerms(cfg, Apply(cfg, s, steps[0]), steps[1..], id, Observed(cfg, s, steps[0], id, t));
    }
  }

  /**
   Over a whole run a row holds the payload of its last edit that landed, or else the one
   inserted; it is claimed until its time is up, and deleted no sooner than its retention ends.
   */
  lemma RowsAreOnTerms(cfg: Config, steps: seq<Step>, id: Id, t: Terms, now: Time)
    requires FreshRun(cfg, Init, steps) && id in Exec(cfg, Init, steps).rows
    ensures
      var s, t1 := Exec(cfg, Init, steps), ObservedRun(cfg, Init, steps, id, t);
      && OnTerms(cfg, s.rows[id], t1)
      && (Apply(cfg, s, Expire(id, now)).rows[id] != s.rows[id] <==> IsOverdue(cfg, s.rows[id], t1, now))
      && (id !in Apply(cfg, s, Ttl(id, now)).rows <==>
            s.rows[id].doc.status in {Completed, Purged} && t1.closedAt + cfg.retentionMs <= now)
  {
    RunKeepsInv(cfg, Init, steps);
    RunKeepsTerms(cfg, Init, steps, id, t);
    var s, t1 := Exec(cfg, Init, steps), ObservedRun(cfg, Init, steps, id, t);
    assert RowOk(cfg, s.rows[id], s.log[id]);
    ExpiresExactly(cfg, s, id, now, t1);
    DeletesExactly(cfg, s, id, now, t1);
  }
}
