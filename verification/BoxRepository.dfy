/**
 The box as the service runs it: the in-memory event a poller changes, the
 repository that updates the stored rows, and the poller's handling of a batch.
 Every method is stated over the row functions the protocol is made of.
 */
module BoxRepository {
  import opened Wrappers
  import opened BoxRows
  import opened BoxProtocol

  /** An Inbox or Outbox instance: a poller's copy of one row. */
  class BoxEvent {
    const cfg: Config
    const id: Id
    const event: Payload
    const segregationRef: string
    const order: Time
    const lastRedrive: Option<Time>
    var status: Status
    var retryable: bool
    var completionAttempts: nat
    var attemptHistory: seq<Attempt>
    var lastError: Option<Attempt>
    var lastResubmissionDate: Option<Time>
    var completionDate: Option<Time>
    var expireAt: Option<Time>
    var claimedBy: Option<Token>
    var claimedAt: Option<Time>
    var claimExpiresAt: Option<Time>

    constructor FromDocument(cfg: Config, id: Id, doc: Document, now: Time)
      ensures this.cfg == cfg && this.id == id
      ensures ToDocument() == BoxRows.FromDocument(cfg, doc, now)
    {
      this.cfg := cfg;
      this.id := id;
      event := doc.event;
      segregationRef := doc.segregationRef;
      order := if cfg.kind.Inbox? then doc.event.time.GetOr(now) else doc.order;
      lastRedrive := doc.lastRedrive;
      status := doc.status;
      retryable := doc.retryable;
      completionAttempts := doc.completionAttempts;
      attemptHistory := LastTen(doc.attemptHistory);
      lastError := doc.lastError;
      lastResubmissionDate := doc.lastResubmissionDate;
      completionDate := doc.completionDate;
      expireAt := doc.expireAt;
      claimedBy, claimedAt, claimExpiresAt := None, None, None;
    }

    function ToDocument(): Document
      reads this
    {
      Document(
        event, segregationRef, order, status, retryable, completionAttempts, attemptHistory, lastError,
        lastResubmissionDate, completionDate, expireAt, lastRedrive, claimedBy, claimedAt, claimExpiresAt)
    }

    method MarkAsComplete(now: Time)
      modifies this
      ensures ToDocument() == MarkComplete(cfg, old(ToDocument()), now)
    {
      status := Completed;
      completionDate := Some(now);
      expireAt := Some(now + cfg.retentionMs);
      claimedBy, claimedAt, claimExpiresAt := None, None, None;
    }

    method MarkAsFailed(failure: Failure, now: Time)
      modifies this
      ensures ToDocument() == MarkFailed(cfg, old(ToDocument()), failure, now)
    {
      if cfg.kind.Inbox? {
        retryable := !IsPermanent(cfg, failure);
      }
      status := if IsPermanent(cfg, failure) then DeadLetter else Failed;
      expireAt := None;
      lastResubmissionDate := Some(now);
      if failure.error.Some? {
        lastError := failure.error;
      }
      attemptHistory := AppendAttempt(attemptHistory, failure.error);
      completionAttempts := completionAttempts + 1;
      claimedBy, claimedAt, claimExpiresAt := None, None, None;
    }
  }

  /** The rows a claim may take: claimable, and of the given segregation reference. */
  function Candidates(cfg: Config, rows: map<Id, Row>, segregationRef: string): set<Id> {
    set id | id in rows && Claimable(cfg, rows[id]) && rows[id].doc.segregationRef == segregationRef
  }

  /** `id` is one of the oldest of `ids`. */
  predicate IsOldest(rows: map<Id, Row>, ids: set<Id>, id: Id)
    requires ids <= rows.Keys
  {
    id in ids && forall other :: other in ids ==> rows[id].doc.order <= rows[other].doc.order
  }

  /** One of the oldest of a non-empty set of rows, as a sorted read finds it. */
  method FindOldest(rows: map<Id, Row>, ids: set<Id>) returns (oldest: Id)
    requires ids != {} && ids <= rows.Keys
    ensures IsOldest(rows, ids, oldest)
  {
    oldest :| oldest in ids;
    var left := ids - {oldest};
    while left != {}
      invariant left <= ids && oldest in ids - left
      invariant forall other :: other in ids - left ==> rows[oldest].doc.order <= rows[other].doc.order
      decreases |left|
    {
      var id :| id in left;
      if rows[id].doc.order < rows[oldest].doc.order {
        oldest := id;
      }
      left := left - {id};
    }
  }

  /** `taken` are rows of `rows`, oldest first, and nothing left to take is older than any of them. */
  predicate OldestFirst(cfg: Config, rows: map<Id, Row>, segregationRef: string, taken: seq<Id>) {
    && (forall i :: 0 <= i < |taken| ==> taken[i] in Candidates(cfg, rows, segregationRef))
    && (forall i, j :: 0 <= i < j < |taken| ==> taken[i] != taken[j])
    && (forall i, j :: 0 <= i < j < |taken| ==> rows[taken[i]].doc.order <= rows[taken[j]].doc.order)
    && (forall i, id :: 0 <= i < |taken| && id in Candidates(cfg, rows, segregationRef) && id !in taken ==>
          rows[taken[i]].doc.order <= rows[id].doc.order)
  }

  /** The rows with the first of `taken` claimed at the first instant, and so on. */
  predicate ClaimedInOrder(
    cfg: Config, rows: map<Id, Row>, rows1: map<Id, Row>, taken: seq<Id>, token: Token, clock: seq<Time>)
  {
    && rows1.Keys == rows.Keys
    && |taken| <= |clock|
    && (forall i :: 0 <= i < |taken| ==>
      taken[i] in rows && rows1[taken[i]] == Claim(cfg, rows[taken[i]], token, clock[i]))
    && (forall id :: id in rows && id !in taken ==> rows1[id] == rows[id])
  }

  /** What a claim loop has done so far, and what it has left to take from. */
  predicate BatchSoFar(
    cfg: Config, rows: map<Id, Row>, rows1: map<Id, Row>, segregationRef: string, taken: seq<Id>, token: Token,
    clock: seq<Time>)
  {
    && OldestFirst(cfg, rows, segregationRef, taken)
    && ClaimedInOrder(cfg, rows, rows1, taken, token, clock)
    && Candidates(cfg, rows1, segregationRef) == Candidates(cfg, rows, segregationRef) - (set id | id in taken)
  }

  /** The oldest of what is left comes after all that is taken. */
  lemma OldestComesNext(
    cfg: Config, rows: map<Id, Row>, left: set<Id>, segregationRef: string, taken: seq<Id>, id: Id)
    requires OldestFirst(cfg, rows, segregationRef, taken)
    requires left == Candidates(cfg, rows, segregationRef) - (set other | other in taken)
    requires IsOldest(rows, left, id)
    ensures OldestFirst(cfg, rows, segregationRef, taken + [id])
  {
    var all := taken + [id];
    assert id in Candidates(cfg, rows, segregationRef) && id !in taken;
    forall i | 0 <= i < |all|
      ensures all[i] in Candidates(cfg, rows, segregationRef)
      ensures i < |taken| ==> rows[all[i]].doc.order <= rows[id].doc.order
    {
      assert i < |taken| ==> all[i] == taken[i];
    }
    forall i, other | 0 <= i < |all| && other in Candidates(cfg, rows, segregationRef) && other !in all
      ensures rows[all[i]].doc.order <= rows[other].doc.order
    {
      assert other !in taken && other in left;
    }
  }

  lemma ClaimedNext(
    cfg: Config, rows: map<Id, Row>, rows1: map<Id, Row>, taken: seq<Id>, token: Token, clock: seq<Time>, id: Id)
    requires ClaimedInOrder(cfg, rows, rows1, taken, token, clock) && |taken| < |clock| && id in rows && id !in taken
    ensures ClaimedInOrder(
      cfg, rows, rows1[id := Claim(cfg, rows1[id], token, clock[|taken|])], taken + [id], token, clock)
  {
    var rows2 := rows1[id := Claim(cfg, rows1[id], token, clock[|taken|])];
    var all := taken + [id];
    forall i | 0 <= i < |all|
      ensures all[i] in rows && rows2[all[i]] == Claim(cfg, rows[all[i]], token, clock[i])
    {
      assert i < |taken| ==> all[i] == taken[i] && all[i] != id;
    }
    assert forall other :: other in rows && other !in all ==> other != id && other !in taken;
  }

  /** A claimed row is a candidate no longer; the others are as before. */
  lemma CandidatesAfterClaim(
    cfg: Config, rows: map<Id, Row>, segregationRef: string, id: Id, token: Token, now: Time)
    requires id in rows
    ensures Candidates(cfg, rows[id := Claim(cfg, rows[id], token, now)], segregationRef)
      == Candidates(cfg, rows, segregationRef) - {id}
  {
  }

  /** Claiming one of the oldest of what is left keeps the batch the oldest, in order. */
  lemma TakeNext(
    cfg: Config, rows: map<Id, Row>, rows1: map<Id, Row>, segregationRef: string, taken: seq<Id>, token: Token,
    clock: seq<Time>, id: Id)
    requires BatchSoFar(cfg, rows, rows1, segregationRef, taken, token, clock) && |taken| < |clock|
    requires IsOldest(rows1, Candidates(cfg, rows1, segregationRef), id)
    ensures id in rows1 &&
      BatchSoFar(
        cfg, rows, rows1[id := Claim(cfg, rows1[id], token, clock[|taken|])], segregationRef, taken + [id], token,
          clock)
  {
    var left := Candidates(cfg, rows1, segregationRef);
    assert IsOldest(rows, left, id) && id !in taken;
    assert OldestFirst(cfg, rows, segregationRef, taken + [id]) by {
      OldestComesNext(cfg, rows, left, segregationRef, taken, id);
    }
    ClaimedNext(cfg, rows, rows1, taken, token, clock, id);
    CandidatesAfterClaim(cfg, rows1, segregationRef, id, token, clock[|taken|]);
    assert (set other | other in taken + [id]) == (set other | other in taken) + {id};
  }

  /** The collection behind the inbox or the outbox. */
  class Box {
    const cfg: Config
    var rows: map<Id, Row>

    constructor (cfg: Config)
      ensures this.cfg == cfg && rows == map[]
    {
      this.cfg := cfg;
      rows := map[];
    }

    method InsertOne(id: Id, event: Payload, segregationRef: string, now: Time)
      requires id !in rows
      modifies this
      ensures rows == old(rows)[id := NewRow(cfg, event, segregationRef, now)]
    {
      rows := rows[id := NewRow(cfg, event, segregationRef, now)];
    }

    /** The next reference to work on: that of the oldest claimable row nobody has locked. */
    method FindNextMessage(locked: set<string>) returns (found: Option<Id>)
      ensures var free := set id | id in rows && Claimable(cfg, rows[id]) && rows[id].doc.segregationRef !in locked;
        if free == {} then found == None else found.Some? && IsOldest(rows, free, found.value)
    {
      var free := set id | id in rows && Claimable(cfg, rows[id]) && rows[id].doc.segregationRef !in locked;
      if free == {} {
        return None;
      }
      var oldest := FindOldest(rows, free);
      return Some(oldest);
    }

    /** One find-and-update: the oldest row of the reference, if there is one to claim. */
    method ClaimOne(token: Token, segregationRef: string, now: Time) returns (claimed: Option<Id>)
      modifies this
      ensures var ids := Candidates(cfg, old(rows), segregationRef);
        if ids == {} then claimed == None && rows == old(rows)
        else
          && claimed.Some? && IsOldest(old(rows), ids, claimed.value)
          && rows == old(rows)[claimed.value := Claim(cfg, old(rows)[claimed.value], token, now)]
    {
      var ids := Candidates(cfg, rows, segregationRef);
      if ids == {} {
        return None;
      }
      var id := FindOldest(rows, ids);
      rows := rows[id := Claim(cfg, rows[id], token, now)];
      return Some(id);
    }

    /**
     A batch nothing else disturbs: as many of the reference's rows as it may take,
     the oldest, in order, each claimed under the token, and no other row touched.
     */
    method ClaimEvents(token: Token, segregationRef: string, clock: seq<Time>) returns (taken: seq<Id>)
      modifies this
      ensures OldestFirst(cfg, old(rows), segregationRef, taken)
      ensures ClaimedInOrder(cfg, old(rows), rows, taken, token, clock)
      ensures |taken| == |clock| || Candidates(cfg, rows, segregationRef) == {}
      ensures Candidates(cfg, rows, segregationRef) ==
        Candidates(cfg, old(rows), segregationRef) - (set id | id in taken)
    {
      taken := [];
      var i := 0;
      while i < |clock|
        invariant 0 <= i <= |clock| && |taken| <= i
        invariant BatchSoFar(cfg, old(rows), rows, segregationRef, taken, token, clock)
        invariant |taken| == i || Candidates(cfg, rows, segregationRef) == {}
      {
        ghost var before := rows;
        var claimed := ClaimOne(token, segregationRef, clock[i]);
        if claimed.Some? {
          TakeNext(cfg, old(rows), before, segregationRef, taken, token, clock, claimed.value);
          taken := taken + [claimed.value];
        }
        i := i + 1;
      }
    }

    /** The fenced write. */
    method Update(copy: BoxEvent, token: Token) returns (matched: bool)
      modifies this
      ensures matched == (copy.id in old(rows) && old(rows)[copy.id].doc.claimedBy == Some(token))
      ensures rows == Written(old(rows), copy.id, copy.ToDocument(), token, Acknowledged)
    {
      matched := copy.id in rows && rows[copy.id].doc.claimedBy == Some(token);
      if matched {
        rows := rows[copy.id := rows[copy.id].(doc := copy.ToDocument())];
      } else if copy.id in rows {
        assert rows[copy.id := rows[copy.id]] == rows;
      }
    }

    method ProcessExpiredEvents(now: Time)
      modifies this
      ensures rows == map id | id in old(rows) :: SweepExpired(old(rows)[id], now)
    {
      rows := map id | id in rows :: SweepExpired(rows[id], now);
    }

    method UpdateDeadEvents()
      modifies this
      ensures rows == map id | id in old(rows) :: SweepDead(cfg, old(rows)[id])
    {
      rows := map id | id in rows :: SweepDead(cfg, rows[id]);
    }

    method UpdateFailedEvents()
      modifies this
      ensures rows == map id | id in old(rows) :: SweepFailed(old(rows)[id])
    {
      rows := map id | id in rows :: SweepFailed(rows[id]);
    }

    method UpdateResubmittedEvents()
      modifies this
      ensures rows == map id | id in old(rows) :: SweepResubmitted(old(rows)[id])
    {
      rows := map id | id in rows :: SweepResubmitted(rows[id]);
    }

    method RedriveById(id: Id, now: Time) returns (redriven: bool)
      modifies this
      ensures redriven == (id in old(rows) && IsRedrivable(old(rows)[id].doc.status))
      ensures rows == if redriven then old(rows)[id := Redrive(old(rows)[id], now)] else old(rows)
    {
      redriven := id in rows && IsRedrivable(rows[id].doc.status);
      if redriven {
        rows := rows[id := Redrive(rows[id], now)];
      }
    }

    method PurgeById(id: Id, now: Time) returns (purged: bool)
      modifies this
      ensures purged == (id in old(rows) && old(rows)[id].doc.status == DeadLetter)
      ensures rows == if purged then old(rows)[id := Purge(cfg, old(rows)[id], now)] else old(rows)
    {
      purged := id in rows && rows[id].doc.status == DeadLetter;
      if purged {
        rows := rows[id := Purge(cfg, rows[id], now)];
      }
    }

    /** The edit use case in its transaction: read, decide what to keep, write fenced by the revision. */
    method EditPayload(id: Id, revision: nat, event: Payload, now: Time) returns (edited: bool)
      modifies this
      ensures edited == (id in old(rows) && IsRedrivable(old(rows)[id].doc.status) &&
        RevisionOf(old(rows)[id]) == revision)
      ensures edited ==>
        var row := old(rows)[id];
        rows == old(rows)[id := row.(
          doc := row.doc.(
            event := event, order := if cfg.kind.Inbox? then event.time.GetOr(now) else row.doc.order),
          payloadRevision := Some(revision + 1),
          lastEdit := Some(now),
          originalPayload := if row.lastEdit.Some? then row.originalPayload else Some(row.doc.event))]
      ensures !edited ==> rows == old(rows)
    {
      edited := id in rows && IsRedrivable(rows[id].doc.status) && RevisionOf(rows[id]) == revision;
      if edited {
        var original := if rows[id].lastEdit.Some? then None else Some(rows[id].doc.event);
        rows := rows[id := Edit(cfg, rows[id], revision, event, original, now)];
      }
    }
  }

  /**
   What handling one event comes to: its handler throws, or it is delivered and then its
   completing write may throw too; either way a failing write follows, and fares as `failing`.
   */
  datatype Dispatched =
    | Threw(failure: Failure, failing: Outcome)
    | Delivered(write: Outcome, writeError: Failure, failing: Outcome)
  {
    /** A failing write that throws ends the whole batch. */
    predicate Aborts() {
      !failing.Acknowledged? && (Delivered? ==> !write.Acknowledged?)
    }

    /** Some write of the copy reached the database. */
    predicate Reaches() {
      !failing.Lost? || (Delivered? && !write.Lost?)
    }
  }

  /** The rows after one event is handled: completed, or failed by its handler or by its completing write. */
  function Handled(
    cfg: Config, rows: map<Id, Row>, id: Id, copy: Document, token: Token, result: Dispatched, now: Time): map<Id, Row>
  {
    match result
    case Threw(failure, failing) => Written(rows, id, MarkFailed(cfg, copy, failure, now), token, failing)
    case Delivered(write, writeError, failing) =>
      var marked := MarkComplete(cfg, copy, now);
      var rows1 := Written(rows, id, marked, token, write);
      if write.Acknowledged? then rows1
      else Written(rows1, id, MarkFailed(cfg, marked, writeError, now), token, failing)
  }

  /** The write as its caller sees it: a lost one changes nothing, and one not acknowledged throws. */
  method TryUpdate(box: Box, copy: BoxEvent, token: Token, outcome: Outcome)
    modifies box
    ensures box.rows == Written(old(box.rows), copy.id, copy.ToDocument(), token, outcome)
  {
    if !outcome.Lost? {
      var _ := box.Update(copy, token);
    }
  }

  method HandleEvent(box: Box, copy: BoxEvent, token: Token, result: Dispatched, now: Time) returns (aborted: bool)
    requires copy.cfg == box.cfg
    modifies box, copy
    ensures box.rows == Handled(box.cfg, old(box.rows), copy.id, old(copy.ToDocument()), token, result, now)
    ensures aborted <==> result.Aborts()
  {
    var failure: Failure;
    match result {
      case Threw(thrown, _) => failure := thrown;
      case Delivered(write, writeError, _) =>
        copy.MarkAsComplete(now);
        TryUpdate(box, copy, token, write);
        if write.Acknowledged? {
          return false;
        }
        failure := writeError;
    }
    copy.MarkAsFailed(failure, now);
    TryUpdate(box, copy, token, result.failing);
    aborted := !result.failing.Acknowledged?;
  }

  /**
   After one event is handled its row is still under the token exactly if it was and no
   write reached the database, and then nothing has changed; no other row has in any case.
   */
  lemma HandledEndsClaim(
    cfg: Config, rows: map<Id, Row>, id: Id, copy: Document, token: Token, result: Dispatched, now: Time)
    ensures
      var rows1 := Handled(cfg, rows, id, copy, token, result, now);
      && rows1.Keys == rows.Keys
      && (id in rows ==>
           (rows1[id].doc.claimedBy == Some(token) <==> rows[id].doc.claimedBy == Some(token) && !result.Reaches()))
      && (!result.Reaches() ==> rows1 == rows)
      && (forall other :: other in rows && other != id ==> rows1[other] == rows[other])
    ensures result.Aborts() || result.Reaches()
  {
  }

  /** Which failure a handled event ends with, if it does: its handler's, or its completing write's. */
  function FailureOf(result: Dispatched): Option<Failure> {
    match result
    case Threw(failure, failing) => if failing.Lost? then None else Some(failure)
    case Delivered(write, writeError, failing) =>
      if write.Lost? && !failing.Lost? then Some(writeError) else None
  }

  /**
   A row handled under its claim: completed as soon as the completing write reaches it,
   whatever follows; otherwise failed, or given up if the failure is permanent, with one
   attempt more, if the failing write reaches it.
   */
  lemma HandledRowIs(
    cfg: Config, rows: map<Id, Row>, id: Id, copy: Document, token: Token, result: Dispatched, now: Time)
    requires id in rows && rows[id].doc.claimedBy == Some(token)
    ensures id in Handled(cfg, rows, id, copy, token, result, now)
    ensures
      var doc := Handled(cfg, rows, id, copy, token, result, now)[id].doc;
      && (result.Delivered? && !result.write.Lost? ==>
            && doc.status == Completed && doc.completionDate == Some(now)
            && doc.expireAt == Some(now + cfg.retentionMs)
            && doc.completionAttempts == copy.completionAttempts && doc.event == copy.event)
      && (FailureOf(result).Some? ==>
            var failure := FailureOf(result).value;
            && doc.status ==
                 (if cfg.kind.Inbox? && failure.error.Some? && failure.permanent then DeadLetter else Failed)
            && doc.completionAttempts == copy.completionAttempts + 1 && doc.event == copy.event
            && doc.expireAt == None
            && (failure.error.Some? ==> doc.lastError == failure.error))
  {
  }

  /** The token still claims the row. */
  predicate IsUnder(rows: map<Id, Row>, id: Id, token: Token) {
    id in rows && rows[id].doc.claimedBy == Some(token)
  }

  /** Among the first `handled` events some write of the row's copy reached the database. */
  predicate IsReached(copies: seq<BoxEvent>, results: seq<Dispatched>, handled: nat, id: Id)
    requires handled <= |copies| == |results|
  {
    exists i :: 0 <= i < handled && copies[i].id == id && results[i].Reaches()
  }

  lemma OneMoreReached(copies: seq<BoxEvent>, results: seq<Dispatched>, handled: nat)
    requires handled < |copies| == |results|
    ensures forall id :: IsReached(copies, results, handled + 1, id) <==>
      IsReached(copies, results, handled, id) || (copies[handled].id == id && results[handled].Reaches())
  {
    forall id
      ensures IsReached(copies, results, handled + 1, id) <==>
        IsReached(copies, results, handled, id) || (copies[handled].id == id && results[handled].Reaches())
    {
      if IsReached(copies, results, handled + 1, id) {
        var i :| 0 <= i < handled + 1 && copies[i].id == id && results[i].Reaches();
        assert i < handled ==> IsReached(copies, results, handled, id);
      }
    }
  }

  /**
   The events of a batch are handled one after the other, up to the first whose failing
   write throws. A row that some write reached is no longer under the token; any other
   row, of the batch or not, is as it was.
   */
  method ProcessEvents(box: Box, copies: seq<BoxEvent>, token: Token, results: seq<Dispatched>, now: Time)
    returns (handled: nat)
    requires |results| == |copies|
    requires forall i :: 0 <= i < |copies| ==> copies[i].cfg == box.cfg
    modifies box, copies
    ensures box.rows.Keys == old(box.rows).Keys
    ensures handled <= |copies|
    ensures forall i :: 0 <= i < handled - 1 ==> !results[i].Aborts()
    ensures handled < |copies| ==> handled > 0 && results[handled - 1].Aborts()
    ensures forall id :: id in box.rows ==>
      if IsReached(copies, results, handled, id) then !IsUnder(box.rows, id, token)
      else box.rows[id] == old(box.rows)[id]
  {
    handled := 0;
    while handled < |copies|
      invariant 0 <= handled <= |copies|
      invariant box.rows.Keys == old(box.rows).Keys
      invariant forall i :: 0 <= i < handled ==> !results[i].Aborts()
      invariant forall id :: id in box.rows ==>
        if IsReached(copies, results, handled, id) then !IsUnder(box.rows, id, token)
        else box.rows[id] == old(box.rows)[id]
    {
      var copy, result := copies[handled], results[handled];
      HandledEndsClaim(box.cfg, box.rows, copy.id, copy.ToDocument(), token, result, now);
      var aborted := HandleEvent(box, copy, token, result, now);
      OneMoreReached(copies, results, handled);
      handled := handled + 1;
      if aborted {
        return;
      }
    }
  }
}
