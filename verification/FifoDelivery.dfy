/**
 Delivery under locks: the pollers of one box, each working on the rows of the one
 reference whose lock it holds, over the same rows and locks as everybody else.
 */
module FifoDelivery {
  import opened Wrappers
  import opened BoxRows
  import Box = BoxProtocol
  import Runs = BoxRuns
  import Fifo = FifoLocks

  /** The box's own actor, its configuration, and how long a lock may stand. */
  datatype Setting = Setting(actor: string, cfg: Config, ttl: nat)

  /** The rows and copies of the box, the locks and their holders, and what each holder has claimed and not finished. */
  datatype State = State(box: Box.State, fifo: Fifo.State, batch: map<Fifo.Poller, seq<Box.Handle>>)

  datatype Step =
    | Lock(p: Fifo.Poller, key: Fifo.Key)
    | Claim(p: Fifo.Poller, handle: Box.Handle, token: Token, id: Id, now: Time)
    | Dispatch(p: Fifo.Poller)
    | Complete(p: Fifo.Poller, now: Time, outcome: Box.Outcome)
    | Fail(p: Fifo.Poller, failure: Failure, now: Time, outcome: Box.Outcome)
    | Release(p: Fifo.Poller)
    | Crash(p: Fifo.Poller)
    | Other(step: Box.Step)
    | Tick(elapsed: nat)
    | SweepLocks(actor: string)

  const Start := Box.Init

  function Init(start: Time): State {
    State(Start, Fifo.Init(start), map[])
  }

  /** The copy is with its handler, or its completing write threw and the failing one is still to come. */
  predicate InDispatch(box: Box.State, h: Box.Handle) {
    h in box.work && !box.work[h].stage.Waiting?
  }

  /** A poller claims only rows of the reference it has locked for this box. */
  predicate MayClaim(env: Setting, s: State, step: Step)
    requires step.Claim?
  {
    && step.p in s.batch && step.p in s.fifo.holds
    && step.handle !in s.box.work
    && step.id in s.box.rows && Claimable(env.cfg, s.box.rows[step.id])
    && s.fifo.holds[step.p].key == Fifo.Key(env.actor, s.box.rows[step.id].doc.segregationRef)
  }

  /** A poller awaits what it has dispatched before it frees its lock. */
  predicate MayRelease(s: State, p: Fifo.Poller) {
    p in s.batch && p in s.fifo.holds && (s.batch[p] == [] || !InDispatch(s.box, s.batch[p][0]))
  }

  /** What sweeps, operators, the TTL index and the writers of new rows do. */
  predicate IsOther(step: Box.Step) {
    !(step.ClaimRow? || step.Dispatch? || step.WriteComplete? || step.WriteFailed? || step.Crash?)
  }

  /** A holder that goes away leaves its copies to nobody. */
  function Abandoned(box: Box.State, batch: seq<Box.Handle>): Box.State {
    box.(work := box.work - (set h | h in batch))
  }

  /** The poller's next event is handled by a step of the box; once it is done with, the one behind it is next. */
  function OnHead(env: Setting, s: State, p: Fifo.Poller, step: Box.Step): State
    requires s.box.Logged() && p in s.batch && s.batch[p] != []
  {
    var box := Box.Apply(env.cfg, s.box, step);
    s.(box := box, batch := if s.batch[p][0] in box.work then s.batch else s.batch[p := s.batch[p][1..]])
  }

  predicate HasHead(s: State, p: Fifo.Poller) {
    p in s.batch && s.batch[p] != []
  }

  function Apply(env: Setting, s: State, step: Step): (s1: State)
    requires s.box.Logged()
    ensures s1.box.Logged()
  {
    match step
    case Lock(p, key) =>
      if p !in s.fifo.holds && Fifo.CanTake(s.fifo.locks, key) then
        s.(fifo := Fifo.Apply(env.ttl, s.fifo, Fifo.Take(p, key)), batch := s.batch[p := []])
      else s
    case Claim(p, handle, token, id, now) =>
      if MayClaim(env, s, step) then
        s.(box := Box.Apply(env.cfg, s.box, Box.ClaimRow(handle, token, id, now)),
           batch := s.batch[p := s.batch[p] + [handle]])
      else s
    case Dispatch(p) => if HasHead(s, p) then OnHead(env, s, p, Box.Dispatch(s.batch[p][0])) else s
    case Complete(p, now, outcome) =>
      if HasHead(s, p) then OnHead(env, s, p, Box.WriteComplete(s.batch[p][0], now, outcome)) else s
    case Fail(p, failure, now, outcome) =>
      if HasHead(s, p) then OnHead(env, s, p, Box.WriteFailed(s.batch[p][0], failure, now, outcome)) else s
    case Release(p) =>
      if MayRelease(s, p) then
        State(Abandoned(s.box, s.batch[p]), Fifo.Apply(env.ttl, s.fifo, Fifo.Free(p)), s.batch - {p})
      else s
    case Crash(p) =>
      if p in s.batch then
        State(Abandoned(s.box, s.batch[p]), Fifo.Apply(env.ttl, s.fifo, Fifo.Crash(p)), s.batch - {p})
      else s
    case Other(step) => if IsOther(step) then s.(box := Box.Apply(env.cfg, s.box, step)) else s
    case Tick(elapsed) => s.(fifo := Fifo.Apply(env.ttl, s.fifo, Fifo.Tick(elapsed)))
    case SweepLocks(actor) => s.(fifo := Fifo.Apply(env.ttl, s.fifo, Fifo.Sweep(actor)))
  }

  predicate Timely(env: Setting, s: State, step: Step) {
    step.SweepLocks? ==> Fifo.Timely(env.ttl, s.fifo, Fifo.Sweep(step.actor))
  }

  /*** The invariant ***/

  /** A copy keeps to the reference of its row. */
  predicate CopyRefOk(box: Box.State, h: Box.Handle)
    requires h in box.work
  {
    var w := box.work[h];
    w.id in box.log && (w.id in box.rows ==> box.rows[w.id].doc.segregationRef == w.copy.segregationRef)
  }

  predicate RefsOk(box: Box.State) {
    forall h :: h in box.work ==> CopyRefOk(box, h)
  }

  predicate Owns(s: State, p: Fifo.Poller, h: Box.Handle) {
    p in s.batch && h in s.batch[p]
  }

  /** What a holder has claimed: copies of the reference it has locked, none but the first being dispatched. */
  predicate BatchOk(env: Setting, s: State, p: Fifo.Poller)
    requires p in s.batch
  {
    && p in s.fifo.holds
    && (forall i :: 0 <= i < |s.batch[p]| ==>
          var h := s.batch[p][i];
          && h in s.box.work
          && (i > 0 ==> !InDispatch(s.box, h))
          && s.fifo.holds[p].key == Fifo.Key(env.actor, s.box.work[h].copy.segregationRef))
    && (forall i, j :: 0 <= i < j < |s.batch[p]| ==> s.batch[p][i] != s.batch[p][j])
  }

  ghost predicate OneOwner(s: State) {
    forall p, q, h :: Owns(s, p, h) && Owns(s, q, h) ==> p == q
  }

  ghost predicate AllOwned(s: State) {
    forall h :: h in s.box.work ==> exists p :: Owns(s, p, h)
  }

  ghost predicate Inv(env: Setting, s: State) {
    && s.box.Logged() && RefsOk(s.box) && Fifo.Inv(s.fifo)
    && s.batch.Keys == s.fifo.holds.Keys
    && (forall p :: p in s.batch ==> BatchOk(env, s, p))
    && OneOwner(s)
    && AllOwned(s)
  }

  /*** What the box's steps do to copies and their references ***/

  lemma OtherKeepsWork(cfg: Config, box: Box.State, step: Box.Step)
    requires box.Logged() && IsOther(step)
    ensures Box.Apply(cfg, box, step).work == box.work
  {
  }

  /** No step of the box changes the reference of a row. */
  lemma OtherKeepsRowRefs(cfg: Config, box: Box.State, step: Box.Step, id: Id)
    requires box.Logged() && IsOther(step) && id in box.log
    ensures
      var box1 := Box.Apply(cfg, box, step);
      id in box1.rows ==> id in box.rows && box1.rows[id].doc.segregationRef == box.rows[id].doc.segregationRef
  {
  }

  lemma OtherKeepsRefs(cfg: Config, box: Box.State, step: Box.Step)
    requires box.Logged() && IsOther(step) && RefsOk(box)
    ensures RefsOk(Box.Apply(cfg, box, step))
  {
    var box1 := Box.Apply(cfg, box, step);
    OtherKeepsWork(cfg, box, step);
    forall h | h in box1.work
      ensures CopyRefOk(box1, h)
    {
      assert CopyRefOk(box, h);
      OtherKeepsRowRefs(cfg, box, step, box.work[h].id);
    }
  }

  /** A step of a copy's own handler. */
  predicate IsOfHandler(step: Box.Step, h: Box.Handle) {
    (step.Dispatch? || step.WriteComplete? || step.WriteFailed?) && step.handle == h
  }

  /** The copy is gone, or is still of the row and reference it was of; the other copies are as they were. */
  predicate TouchesOnly(box: Box.State, box1: Box.State, h: Box.Handle) {
    && box1.work.Keys - {h} == box.work.Keys - {h}
    && (forall other :: other in box1.work && other in box.work && other != h ==> box1.work[other] == box.work[other])
    && (h in box1.work ==>
          && h in box.work && box1.work[h].id == box.work[h].id
          && box1.work[h].copy.segregationRef == box.work[h].copy.segregationRef)
  }

  lemma HandlerTouchesOnly(cfg: Config, box: Box.State, step: Box.Step, h: Box.Handle)
    requires box.Logged() && h in box.work && IsOfHandler(step, h)
    ensures TouchesOnly(box, Box.Apply(cfg, box, step), h)
    ensures box.log.Keys == Box.Apply(cfg, box, step).log.Keys
  {
  }

  lemma HandlerKeepsRowRefs(cfg: Config, box: Box.State, step: Box.Step, h: Box.Handle, id: Id)
    requires box.Logged() && h in box.work && IsOfHandler(step, h) && CopyRefOk(box, h)
    ensures
      var box1 := Box.Apply(cfg, box, step);
      id in box1.rows ==> id in box.rows && box1.rows[id].doc.segregationRef == box.rows[id].doc.segregationRef
  {
  }

  lemma HandlerKeepsRefs(cfg: Config, box: Box.State, step: Box.Step, h: Box.Handle)
    requires box.Logged() && h in box.work && IsOfHandler(step, h) && RefsOk(box)
    ensures RefsOk(Box.Apply(cfg, box, step))
  {
    var box1 := Box.Apply(cfg, box, step);
    HandlerTouchesOnly(cfg, box, step, h);
    forall other | other in box1.work
      ensures CopyRefOk(box1, other)
    {
      assert CopyRefOk(box, other) && CopyRefOk(box, h);
      HandlerKeepsRowRefs(cfg, box, step, h, box.work[other].id);
    }
  }

  lemma ClaimKeepsRefs(env: Setting, s: State, step: Step)
    requires s.box.Logged() && RefsOk(s.box) && step.Claim? && MayClaim(env, s, step)
    ensures
      var box1 := Box.Apply(env.cfg, s.box, Box.ClaimRow(step.handle, step.token, step.id, step.now));
      && RefsOk(box1) && !InDispatch(box1, step.handle)
      && box1.work.Keys == s.box.work.Keys + {step.handle}
      && (forall h :: h in s.box.work ==> box1.work[h] == s.box.work[h])
      && box1.work[step.handle].copy.segregationRef == s.fifo.holds[step.p].key.segregationRef
  {
    var box1 := Box.Apply(env.cfg, s.box, Box.ClaimRow(step.handle, step.token, step.id, step.now));
    forall h | h in box1.work
      ensures CopyRefOk(box1, h)
    {
      assert h in s.box.work ==> CopyRefOk(s.box, h);
    }
  }

  /*** Every step keeps the invariant ***/

  /** A batch whose copies, holder and lock are as they were. */
  lemma BatchStays(env: Setting, s: State, s1: State, p: Fifo.Poller)
    requires p in s.batch && BatchOk(env, s, p) && p in s1.batch && s1.batch[p] == s.batch[p]
    requires p in s1.fifo.holds && s1.fifo.holds[p].key == s.fifo.holds[p].key
    requires forall h :: h in s.batch[p] ==> h in s1.box.work && s1.box.work[h] == s.box.work[h]
    ensures BatchOk(env, s1, p)
  {
    forall i | 0 <= i < |s.batch[p]|
      ensures s.batch[p][i] in s.batch[p]
    {
    }
  }

  lemma LockKeepsInv(env: Setting, s: State, p: Fifo.Poller, key: Fifo.Key)
    requires Inv(env, s)
    ensures Inv(env, Apply(env, s, Lock(p, key)))
  {
    var s1 := Apply(env, s, Lock(p, key));
    if p !in s.fifo.holds && Fifo.CanTake(s.fifo.locks, key) {
      Fifo.StepKeepsInv(env.ttl, s.fifo, Fifo.Take(p, key));
      forall q | q in s1.batch
        ensures BatchOk(env, s1, q)
      {
        if q != p {
          BatchStays(env, s, s1, q);
        }
      }
      forall h | h in s1.box.work
        ensures exists q :: Owns(s1, q, h)
      {
        var q :| Owns(s, q, h);
        assert Owns(s1, q, h);
      }
      forall q, r, h | Owns(s1, q, h) && Owns(s1, r, h)
        ensures q == r
      {
        assert Owns(s, q, h) && Owns(s, r, h);
      }
    }
  }

  lemma ClaimIsOfANewCopy(env: Setting, s: State, step: Step, q: Fifo.Poller)
    requires Inv(env, s) && step.Claim? && MayClaim(env, s, step)
    ensures !Owns(s, q, step.handle)
  {
    assert q in s.batch ==> BatchOk(env, s, q);
  }

  lemma ClaimKeepsItsBatch(env: Setting, s: State, s1: State, step: Step)
    requires s.box.Logged() && RefsOk(s.box) && step.Claim? && MayClaim(env, s, step) && s1 == Apply(env, s, step)
    requires BatchOk(env, s, step.p) && !Owns(s, step.p, step.handle)
    ensures BatchOk(env, s1, step.p)
  {
    ClaimKeepsRefs(env, s, step);
    var batch := s.batch[step.p];
    forall i | 0 <= i < |batch|
      ensures batch[i] in s.box.work && s1.box.work[batch[i]] == s.box.work[batch[i]] && batch[i] != step.handle
    {
      assert batch[i] in batch;
    }
  }

  lemma ClaimKeepsOtherBatch(env: Setting, s: State, s1: State, step: Step, q: Fifo.Poller)
    requires s.box.Logged() && RefsOk(s.box) && step.Claim? && MayClaim(env, s, step) && s1 == Apply(env, s, step)
    requires q in s.batch && q != step.p && BatchOk(env, s, q)
    ensures q in s1.batch && BatchOk(env, s1, q)
  {
    ClaimKeepsRefs(env, s, step);
    BatchStays(env, s, s1, q);
  }

  lemma ClaimKeepsOwners(env: Setting, s: State, s1: State, step: Step)
    requires Inv(env, s) && step.Claim? && MayClaim(env, s, step) && s1 == Apply(env, s, step)
    ensures OneOwner(s1) && AllOwned(s1)
  {
    ClaimKeepsRefs(env, s, step);
    forall q, h
      ensures Owns(s1, q, h) <==> Owns(s, q, h) || (q == step.p && h == step.handle)
      ensures !Owns(s, q, step.handle)
    {
      ClaimIsOfANewCopy(env, s, step, q);
    }
    forall h | h in s1.box.work
      ensures exists q :: Owns(s1, q, h)
    {
      if h == step.handle {
        assert Owns(s1, step.p, h);
      } else {
        assert h in s.box.work;
        var q :| Owns(s, q, h);
        assert Owns(s1, q, h);
      }
    }
  }

  lemma ClaimKeepsInv(env: Setting, s: State, step: Step)
    requires Inv(env, s) && step.Claim?
    ensures Inv(env, Apply(env, s, step))
  {
    if MayClaim(env, s, step) {
      var s1 := Apply(env, s, step);
      assert RefsOk(s1.box) by {
        ClaimKeepsRefs(env, s, step);
      }
      forall q | q in s1.batch
        ensures BatchOk(env, s1, q)
      {
        assert BatchOk(env, s, q);
        if q == step.p {
          ClaimIsOfANewCopy(env, s, step, q);
          ClaimKeepsItsBatch(env, s, s1, step);
        } else {
          ClaimKeepsOtherBatch(env, s, s1, step, q);
        }
      }
      ClaimKeepsOwners(env, s, s1, step);
    }
  }

  lemma HeadIsNobodyElses(env: Setting, s: State, p: Fifo.Poller, q: Fifo.Poller)
    requires Inv(env, s) && HasHead(s, p) && q in s.batch && q != p
    ensures s.batch[p][0] !in s.batch[q]
  {
    assert Owns(s, p, s.batch[p][0]);
    assert !Owns(s, q, s.batch[p][0]);
  }

  lemma HeadLeavesBatch(env: Setting, s: State, p: Fifo.Poller, step: Box.Step, q: Fifo.Poller)
    requires s.box.Logged() && HasHead(s, p) && s.batch[p][0] in s.box.work && IsOfHandler(step, s.batch[p][0])
    requires q in s.batch && q != p && BatchOk(env, s, q) && s.batch[p][0] !in s.batch[q]
    ensures BatchOk(env, OnHead(env, s, p, step), q)
  {
    var head, s1 := s.batch[p][0], OnHead(env, s, p, step);
    HandlerTouchesOnly(env.cfg, s.box, step, head);
    forall h | h in s.batch[q]
      ensures h in s1.box.work && s1.box.work[h] == s.box.work[h]
    {
      assert h != head && h in s.box.work;
      assert h in s.box.work.Keys - {head};
    }
    BatchStays(env, s, s1, q);
  }

  lemma HeadKeepsBatches(env: Setting, s: State, p: Fifo.Poller, step: Box.Step)
    requires Inv(env, s) && HasHead(s, p) && IsOfHandler(step, s.batch[p][0])
    ensures var s1 := OnHead(env, s, p, step); forall q :: q in s1.batch ==> BatchOk(env, s1, q)
  {
    var s1 := OnHead(env, s, p, step);
    assert BatchOk(env, s, p);
    forall q | q in s1.batch
      ensures BatchOk(env, s1, q)
    {
      if q == p {
        HeadKeepsItsBatch(env, s, p, step);
      } else {
        assert BatchOk(env, s, q);
        HeadIsNobodyElses(env, s, p, q);
        HeadLeavesBatch(env, s, p, step, q);
      }
    }
  }

  lemma HeadKeepsOwners(env: Setting, s: State, p: Fifo.Poller, step: Box.Step)
    requires Inv(env, s) && HasHead(s, p) && IsOfHandler(step, s.batch[p][0])
    ensures var s1 := OnHead(env, s, p, step); OneOwner(s1) && AllOwned(s1)
  {
    var head, s1 := s.batch[p][0], OnHead(env, s, p, step);
    assert BatchOk(env, s, p);
    HandlerTouchesOnly(env.cfg, s.box, step, head);
    forall q, h
      ensures Owns(s1, q, h) <==> Owns(s, q, h) && h in s1.box.work
    {
      OwnedAfterHead(env, s, p, step, q, h);
    }
    forall h | h in s1.box.work
      ensures exists q :: Owns(s1, q, h)
    {
      assert h == head || h in s1.box.work.Keys - {head};
      var q :| Owns(s, q, h);
      assert Owns(s1, q, h);
    }
  }

  lemma HeadKeepsInv(env: Setting, s: State, p: Fifo.Poller, step: Box.Step)
    requires Inv(env, s) && HasHead(s, p) && IsOfHandler(step, s.batch[p][0])
    ensures Inv(env, OnHead(env, s, p, step))
  {
    assert BatchOk(env, s, p);
    assert RefsOk(OnHead(env, s, p, step).box) by {
      HandlerKeepsRefs(env.cfg, s.box, step, s.batch[p][0]);
    }
    HeadKeepsBatches(env, s, p, step);
    HeadKeepsOwners(env, s, p, step);
  }

  /** The first of a batch is in it once. */
  lemma HeadIsOnce(env: Setting, s: State, p: Fifo.Poller, h: Box.Handle)
    requires HasHead(s, p) && BatchOk(env, s, p)
    ensures s.batch[p][0] !in s.batch[p][1..]
    ensures h in s.batch[p] <==> h == s.batch[p][0] || h in s.batch[p][1..]
  {
    assert s.batch[p] == [s.batch[p][0]] + s.batch[p][1..];
  }

  lemma OwnedAfterHead(env: Setting, s: State, p: Fifo.Poller, step: Box.Step, q: Fifo.Poller, h: Box.Handle)
    requires Inv(env, s) && HasHead(s, p) && IsOfHandler(step, s.batch[p][0])
    ensures var s1 := OnHead(env, s, p, step); Owns(s1, q, h) <==> Owns(s, q, h) && h in s1.box.work
  {
    var head, s1 := s.batch[p][0], OnHead(env, s, p, step);
    assert BatchOk(env, s, p) && Owns(s, p, head);
    HandlerTouchesOnly(env.cfg, s.box, step, head);
    assert Owns(s, q, h) ==> h in s.box.work by {
      assert q in s.batch ==> BatchOk(env, s, q);
    }
    HeadIsOnce(env, s, p, h);
  }

  lemma HeadKeepsItsBatch(env: Setting, s: State, p: Fifo.Poller, step: Box.Step)
    requires s.box.Logged() && HasHead(s, p) && BatchOk(env, s, p) && IsOfHandler(step, s.batch[p][0])
    ensures BatchOk(env, OnHead(env, s, p, step), p)
  {
    HandlerTouchesOnly(env.cfg, s.box, step, s.batch[p][0]);
  }

  lemma LeavingKeepsBatch(env: Setting, s: State, s1: State, p: Fifo.Poller, q: Fifo.Poller)
    requires Inv(env, s) && p in s.batch && q in s.batch && q != p
    requires s1.box == Abandoned(s.box, s.batch[p]) && s1.batch == s.batch - {p} && s1.fifo.holds == s.fifo.holds - {p}
    ensures BatchOk(env, s1, q)
  {
    assert BatchOk(env, s, q);
    forall h | h in s.batch[q]
      ensures h in s1.box.work && s1.box.work[h] == s.box.work[h]
    {
      assert Owns(s, q, h);
      assert h in s.batch[p] ==> Owns(s, p, h);
    }
    BatchStays(env, s, s1, q);
  }

  /** A poller that stops: its copies go, and everybody else's stay. */
  lemma LeavingKeepsInv(env: Setting, s: State, p: Fifo.Poller, fifo: Fifo.State)
    requires Inv(env, s) && p in s.batch
    requires Fifo.Inv(fifo) && fifo.holds == s.fifo.holds - {p}
    ensures Inv(env, State(Abandoned(s.box, s.batch[p]), fifo, s.batch - {p}))
  {
    var s1 := State(Abandoned(s.box, s.batch[p]), fifo, s.batch - {p});
    forall h | h in s1.box.work
      ensures CopyRefOk(s1.box, h) && exists q :: Owns(s1, q, h)
    {
      assert CopyRefOk(s.box, h);
      var q :| Owns(s, q, h);
      assert Owns(s1, q, h);
    }
    forall q | q in s1.batch
      ensures BatchOk(env, s1, q)
    {
      LeavingKeepsBatch(env, s, s1, p, q);
    }
    forall q, r, h | Owns(s1, q, h) && Owns(s1, r, h)
      ensures q == r
    {
      assert Owns(s, q, h) && Owns(s, r, h);
    }
  }

  /** Steps that leave copies, holders and batches alone. */
  lemma BystanderKeepsInv(env: Setting, s: State, s1: State)
    requires Inv(env, s) && s1.box.Logged() && RefsOk(s1.box) && Fifo.Inv(s1.fifo)
    requires s1.box.work == s.box.work && s1.fifo.holds == s.fifo.holds && s1.batch == s.batch
    ensures Inv(env, s1)
  {
    forall q | q in s1.batch
      ensures BatchOk(env, s1, q)
    {
      assert BatchOk(env, s, q);
    }
    forall h | h in s1.box.work
      ensures exists q :: Owns(s1, q, h)
    {
      var q :| Owns(s, q, h);
      assert Owns(s1, q, h);
    }
    forall q, r, h | Owns(s1, q, h) && Owns(s1, r, h)
      ensures q == r
    {
      assert Owns(s, q, h) && Owns(s, r, h);
    }
  }

  lemma StepKeepsInv(env: Setting, s: State, step: Step)
    requires Inv(env, s) && Timely(env, s, step)
    ensures Inv(env, Apply(env, s, step))
  {
    match step
    case Lock(p, key) => LockKeepsInv(env, s, p, key);
    case Claim(_, _, _, _, _) => ClaimKeepsInv(env, s, step);
    case Dispatch(p) =>
      if HasHead(s, p) {
        HeadKeepsInv(env, s, p, Box.Dispatch(s.batch[p][0]));
      }
    case Complete(p, now, outcome) =>
      if HasHead(s, p) {
        HeadKeepsInv(env, s, p, Box.WriteComplete(s.batch[p][0], now, outcome));
      }
    case Fail(p, failure, now, outcome) =>
      if HasHead(s, p) {
        HeadKeepsInv(env, s, p, Box.WriteFailed(s.batch[p][0], failure, now, outcome));
      }
    case Release(p) =>
      if MayRelease(s, p) {
        Fifo.StepKeepsInv(env.ttl, s.fifo, Fifo.Free(p));
        LeavingKeepsInv(env, s, p, Fifo.Apply(env.ttl, s.fifo, Fifo.Free(p)));
      }
    case Crash(p) =>
      if p in s.batch {
        Fifo.StepKeepsInv(env.ttl, s.fifo, Fifo.Crash(p));
        LeavingKeepsInv(env, s, p, Fifo.Apply(env.ttl, s.fifo, Fifo.Crash(p)));
      }
    case Other(boxStep) =>
      if IsOther(boxStep) {
        OtherKeepsWork(env.cfg, s.box, boxStep);
        OtherKeepsRefs(env.cfg, s.box, boxStep);
        BystanderKeepsInv(env, s, Apply(env, s, step));
      }
    case Tick(elapsed) =>
      Fifo.StepKeepsInv(env.ttl, s.fifo, Fifo.Tick(elapsed));
      BystanderKeepsInv(env, s, Apply(env, s, step));
    case SweepLocks(actor) =>
      Fifo.StepKeepsInv(env.ttl, s.fifo, Fifo.Sweep(actor));
      BystanderKeepsInv(env, s, Apply(env, s, step));
  }

  /*** Every run ***/

  function Exec(env: Setting, s: State, steps: seq<Step>): (s1: State)
    requires s.box.Logged()
    ensures s1.box.Logged()
    decreases |steps|
  {
    if steps == [] then s else Exec(env, Apply(env, s, steps[0]), steps[1..])
  }

  predicate TimelyRun(env: Setting, s: State, steps: seq<Step>)
    requires s.box.Logged()
    decreases |steps|
  {
    steps == [] || (Timely(env, s, steps[0]) && TimelyRun(env, Apply(env, s, steps[0]), steps[1..]))
  }

  lemma {:induction false} RunKeepsInv(env: Setting, s: State, steps: seq<Step>)
    requires Inv(env, s) && TimelyRun(env, s, steps)
    ensures Inv(env, Exec(env, s, steps))
    decreases |steps|
  {
    if steps != [] {
      StepKeepsInv(env, s, steps[0]);
      RunKeepsInv(env, Apply(env, s, steps[0]), steps[1..]);
    }
  }

  /**
   In every timely run, however claims expire and rows are swept, redriven and claimed
   again: two copies being dispatched for one reference are the same copy.
   */
  lemma OneDispatchPerReference(env: Setting, start: Fifo.Time, steps: seq<Step>, h: Box.Handle, other: Box.Handle)
    requires TimelyRun(env, Init(start), steps)
    requires var box := Exec(env, Init(start), steps).box;
      && InDispatch(box, h) && InDispatch(box, other)
      && box.work[h].copy.segregationRef == box.work[other].copy.segregationRef
    ensures h == other
  {
    RunKeepsInv(env, Init(start), steps);
    InvMeansOneDispatch(env, Exec(env, Init(start), steps), h, other);
  }

  lemma InvMeansOneDispatch(env: Setting, s: State, h: Box.Handle, other: Box.Handle)
    requires Inv(env, s) && InDispatch(s.box, h) && InDispatch(s.box, other)
    requires s.box.work[h].copy.segregationRef == s.box.work[other].copy.segregationRef
    ensures h == other
  {
    var p :| Owns(s, p, h);
    var q :| Owns(s, q, other);
    assert BatchOk(env, s, p) && BatchOk(env, s, q);
    assert s.fifo.holds[p].key == s.fifo.holds[q].key;
    assert h == s.batch[p][0] && other == s.batch[q][0];
  }

  /** The same over rows: rows of one reference are never being dispatched at once, nor one row twice. */
  lemma RowsOfOneReferenceTakeTurns(env: Setting, start: Fifo.Time, steps: seq<Step>, h: Box.Handle, other: Box.Handle)
    requires TimelyRun(env, Init(start), steps)
    requires var box := Exec(env, Init(start), steps).box;
      && InDispatch(box, h) && InDispatch(box, other)
      && box.work[h].id in box.rows && box.work[other].id in box.rows
      && box.rows[box.work[h].id].doc.segregationRef == box.rows[box.work[other].id].doc.segregationRef
    ensures h == other
  {
    RunKeepsInv(env, Init(start), steps);
    var s := Exec(env, Init(start), steps);
    assert CopyRefOk(s.box, h) && CopyRefOk(s.box, other);
    InvMeansOneDispatch(env, s, h, other);
  }

  predicate IsBusy(s: State, p: Fifo.Poller) {
    p in s.batch && exists h :: h in s.batch[p] && InDispatch(s.box, h)
  }

  lemma BusyIsWithTheFirst(env: Setting, s: State, p: Fifo.Poller)
    requires p in s.batch && BatchOk(env, s, p)
    ensures IsBusy(s, p) <==> !MayRelease(s, p)
  {
    if s.batch[p] != [] {
      assert s.batch[p][0] in s.batch[p];
      forall h | h in s.batch[p] && InDispatch(s.box, h)
        ensures h == s.batch[p][0]
      {
        var i :| 0 <= i < |s.batch[p]| && s.batch[p][i] == h;
      }
    }
  }

  /**
   A holder frees its lock only once nothing of its batch is being dispatched, and then what
   is left of the batch is no longer in its hands.
   */
  lemma ReleasesExactly(env: Setting, s: State, p: Fifo.Poller)
    requires s.box.Logged() && p in s.batch && BatchOk(env, s, p)
    ensures
      var s1 := Apply(env, s, Release(p));
      if IsBusy(s, p) then s1 == s
      else
        && s1.box.rows == s.box.rows && p !in s1.fifo.holds && p !in s1.batch
        && !(s.fifo.holds[p].key in s1.fifo.locks && s1.fifo.locks[s.fifo.holds[p].key].locked)
        && s1.box.work.Keys == s.box.work.Keys - (set h | h in s.batch[p])
  {
    BusyIsWithTheFirst(env, s, p);
  }

  /** The row is there for whoever locks its reference. */
  predicate IsFreeToServe(env: Setting, s: State, id: Id) {
    && id in s.box.rows
    && s.box.rows[id].doc.status == Published && s.box.rows[id].doc.claimedBy.None?
    && s.box.rows[id].doc.completionAttempts < env.cfg.maxRetries
    && Fifo.CanTake(s.fifo.locks, Fifo.Key(env.actor, s.box.rows[id].doc.segregationRef))
  }

  lemma LockedAndClaimed(env: Setting, s: State, p: Fifo.Poller, handle: Box.Handle, token: Token, id: Id, now: Time)
    returns (s2: State)
    requires Inv(env, s) && p !in s.fifo.holds && handle !in s.box.work && IsFreeToServe(env, s, id)
    ensures
      var key := Fifo.Key(env.actor, s.box.rows[id].doc.segregationRef);
      && s2 == Apply(env, Apply(env, s, Lock(p, key)), Claim(p, handle, token, id, now))
      && p in s2.fifo.holds && s2.fifo.holds[p].key == key
      && p in s2.batch && s2.batch[p] == [handle]
      && handle in s2.box.work && s2.box.work[handle].stage.Waiting?
      && s2.box.work[handle].id == id && s2.box.work[handle].token == token
      && s2.box.Logged() && id in s2.box.rows && s2.box.rows == s.box.rows[id := s2.box.rows[id]]
      && s2.box.rows[id].doc.claimedBy == Some(token)
  {
    var key := Fifo.Key(env.actor, s.box.rows[id].doc.segregationRef);
    var s1 := Apply(env, s, Lock(p, key));
    assert s1.batch[p] == [] && s1.box == s.box;
    s2 := Apply(env, s1, Claim(p, handle, token, id, now));
    assert s2.batch[p] == [handle];
  }

  lemma DispatchedAndCompleted(env: Setting, s2: State, p: Fifo.Poller, handle: Box.Handle, id: Id, now: Time)
    returns (s3: State, s5: State)
    requires s2.box.Logged() && p in s2.fifo.holds && s2.fifo.holds[p].key in s2.fifo.locks
    requires p in s2.batch && s2.batch[p] == [handle]
    requires handle in s2.box.work && s2.box.work[handle].stage.Waiting? && s2.box.work[handle].id == id
    requires id in s2.box.rows && s2.box.rows[id].doc.claimedBy == Some(s2.box.work[handle].token)
    ensures s3 == Apply(env, s2, Dispatch(p)) && InDispatch(s3.box, handle)
    ensures s5 == Apply(env, Apply(env, s3, Complete(p, now, Box.Acknowledged)), Release(p))
    ensures id in s5.box.rows && s5.box.rows == s2.box.rows[id := s5.box.rows[id]]
    ensures s5.box.rows[id].doc.status == Completed
    ensures p !in s5.fifo.holds && Fifo.CanTake(s5.fifo.locks, s2.fifo.holds[p].key)
  {
    s3 := Apply(env, s2, Dispatch(p));
    assert s3.batch[p] == [handle] && s3.box.rows == s2.box.rows;
    var s4 := Apply(env, s3, Complete(p, now, Box.Acknowledged));
    assert s4.batch[p] == [];
    s5 := Apply(env, s4, Release(p));
  }

  /**
   A reference that is free and has a row to deliver is served: a poller that locks it,
   claims the row, dispatches it, completes it and releases the lock leaves the row
   completed and the reference free again, and no other row touched.
   */
  lemma AFreeReferenceIsServed(
    env: Setting, s: State, p: Fifo.Poller, handle: Box.Handle, token: Token, id: Id, now: Time)
    returns (s2: State, s3: State, s5: State)
    requires Inv(env, s) && p !in s.fifo.holds && handle !in s.box.work && IsFreeToServe(env, s, id)
    ensures
      var key := Fifo.Key(env.actor, s.box.rows[id].doc.segregationRef);
      && s2 == Apply(env, Apply(env, s, Lock(p, key)), Claim(p, handle, token, id, now)) && s2.box.Logged()
      && s3 == Apply(env, s2, Dispatch(p)) && InDispatch(s3.box, handle)
      && s5 == Apply(env, Apply(env, s3, Complete(p, now, Box.Acknowledged)), Release(p))
      && id in s5.box.rows && s5.box.rows == s.box.rows[id := s5.box.rows[id]]
      && s5.box.rows[id].doc.status == Completed
      && p !in s5.fifo.holds && Fifo.CanTake(s5.fifo.locks, key)
  {
    s2 := LockedAndClaimed(env, s, p, handle, token, id, now);
    assert Fifo.Inv(s2.fifo);
    s3, s5 := DispatchedAndCompleted(env, s2, p, handle, id, now);
  }

  /*** Nothing here is outside the box's own protocol ***/

  predicate Fresh(s: State, step: Step) {
    step.Claim? && step.id in s.box.log ==> step.token !in s.box.log[step.id].claims
  }

  /** Giving up a batch is giving up its copies one by one. */
  lemma {:induction false} AbandoningIsARun(
    cfg: Config, box: Box.State, batch: seq<Box.Handle>)
    returns (steps: seq<Box.Step>)
    requires box.Logged()
    ensures Runs.FreshRun(cfg, box, steps) && Runs.Exec(cfg, box, steps) == Abandoned(box, batch)
    decreases |batch|
  {
    if batch == [] {
      steps := [];
      assert Abandoned(box, batch).work == box.work;
    } else {
      var step := Box.Crash(batch[0]);
      var rest := AbandoningIsARun(cfg, Box.Apply(cfg, box, step), batch[1..]);
      Runs.ExecStep(cfg, box, step, rest);
      steps := [step] + rest;
      assert (set h | h in batch) == {batch[0]} + (set h | h in batch[1..]);
      assert Abandoned(Box.Apply(cfg, box, step), batch[1..]).work == Abandoned(box, batch).work;
    }
  }

  /** Every step is a run of the delivery protocol on the box, so all that holds over those runs holds over these. */
  lemma StepIsABoxRun(env: Setting, s: State, step: Step) returns (steps: seq<Box.Step>)
    requires s.box.Logged() && Fresh(s, step)
    ensures Runs.FreshRun(env.cfg, s.box, steps) && Runs.Exec(env.cfg, s.box, steps) == Apply(env, s, step).box
  {
    steps := [];
    match step
    case Claim(p, handle, token, id, now) =>
      if MayClaim(env, s, step) {
        steps := OneStep(env.cfg, s.box, Box.ClaimRow(handle, token, id, now));
      }
    case Dispatch(p) =>
      if HasHead(s, p) {
        steps := OneStep(env.cfg, s.box, Box.Dispatch(s.batch[p][0]));
      }
    case Complete(p, now, outcome) =>
      if HasHead(s, p) {
        steps := OneStep(env.cfg, s.box, Box.WriteComplete(s.batch[p][0], now, outcome));
      }
    case Fail(p, failure, now, outcome) =>
      if HasHead(s, p) {
        steps := OneStep(env.cfg, s.box, Box.WriteFailed(s.batch[p][0], failure, now, outcome));
      }
    case Release(p) =>
      if MayRelease(s, p) {
        steps := AbandoningIsARun(env.cfg, s.box, s.batch[p]);
      }
    case Crash(p) =>
      if p in s.batch {
        steps := AbandoningIsARun(env.cfg, s.box, s.batch[p]);
      }
    case Other(boxStep) =>
      if IsOther(boxStep) {
        steps := OneStep(env.cfg, s.box, boxStep);
      }
    case _ =>
  }

  lemma OneStep(cfg: Config, box: Box.State, step: Box.Step) returns (steps: seq<Box.Step>)
    requires box.Logged() && Box.Fresh(box, step)
    ensures Runs.FreshRun(cfg, box, steps) && Runs.Exec(cfg, box, steps) == Box.Apply(cfg, box, step)
  {
    steps := [step] + [];
    Runs.ExecStep(cfg, box, step, []);
  }

  predicate FreshRun(env: Setting, s: State, steps: seq<Step>)
    requires s.box.Logged()
    decreases |steps|
  {
    steps == [] || (Fresh(s, steps[0]) && FreshRun(env, Apply(env, s, steps[0]), steps[1..]))
  }

  lemma {:induction false} RunIsABoxRun(env: Setting, s: State, steps: seq<Step>) returns (boxSteps: seq<Box.Step>)
    requires s.box.Logged() && FreshRun(env, s, steps)
    ensures Runs.FreshRun(env.cfg, s.box, boxSteps) && Runs.Exec(env.cfg, s.box, boxSteps) == Exec(env, s, steps).box
    decreases |steps|
  {
    if steps == [] {
      boxSteps := [];
    } else {
      var s1 := Apply(env, s, steps[0]);
      var first := StepIsABoxRun(env, s, steps[0]);
      var rest := RunIsABoxRun(env, s1, steps[1..]);
      boxSteps := first + rest;
      RunsJoin(env.cfg, s.box, first, rest);
    }
  }

  lemma {:induction false} RunsJoin(cfg: Config, box: Box.State, first: seq<Box.Step>, rest: seq<Box.Step>)
    requires box.Logged() && Runs.FreshRun(cfg, box, first) && Runs.FreshRun(cfg, Runs.Exec(cfg, box, first), rest)
    ensures Runs.FreshRun(cfg, box, first + rest)
    ensures Runs.Exec(cfg, box, first + rest) == Runs.Exec(cfg, Runs.Exec(cfg, box, first), rest)
    decreases |first|
  {
    if first == [] {
      assert first + rest == rest;
    } else {
      assert (first + rest)[1..] == first[1..] + rest;
      RunsJoin(cfg, Box.Apply(cfg, box, first[0]), first[1..], rest);
    }
  }
}
