/**
 The locks that serialise a box's work per segregation reference: one document per
 actor and reference, a unique index on the two, and a sweep that frees locks whose
 holder seems to have died.
 */
module FifoLocks {
  import opened Wrappers

  type Time = int
  type Poller = nat

  datatype Key = Key(actor: string, segregationRef: string)

  datatype Lock = Lock(locked: bool, lockedAt: Option<Time>)

  type Locks = map<Key, Lock>

  /** Taking a lock matches an unlocked document or upserts one; the unique index refuses a second. */
  predicate CanTake(locks: Locks, key: Key) {
    key !in locks || !locks[key].locked
  }

  function Taken(locks: Locks, key: Key, now: Time): Locks {
    locks[key := Lock(true, Some(now))]
  }

  /** Freeing matches the document whoever holds it. */
  function Freed(locks: Locks, key: Key): Locks {
    if key in locks then locks[key := Lock(false, None)] else locks
  }

  predicate IsStale(lock: Lock, ttl: nat, now: Time) {
    lock.locked && lock.lockedAt.Some? && lock.lockedAt.value < now - ttl
  }

  function Swept(locks: Locks, actor: string, ttl: nat, now: Time): Locks {
    map key | key in locks ::
      if key.actor == actor && IsStale(locks[key], ttl, now) then Lock(false, None) else locks[key]
  }

  datatype DuplicateKey = DuplicateKey

  class FifoLockRepository {
    var locks: Locks

    constructor ()
      ensures locks == map[]
    {
      locks := map[];
    }

    method GetFifoLocks(actor: string) returns (refs: set<string>)
      ensures forall ref :: ref in refs <==> Key(actor, ref) in locks && locks[Key(actor, ref)].locked
    {
      refs := set key | key in locks && key.actor == actor && locks[key].locked :: key.segregationRef;
    }

    method SetFifoLock(key: Key, now: Time) returns (taken: Result<(), DuplicateKey>)
      modifies this
      ensures taken.Ok? <==> CanTake(old(locks), key)
      ensures locks == if taken.Ok? then Taken(old(locks), key, now) else old(locks)
    {
      if key in locks && locks[key].locked {
        return Err(DuplicateKey);
      }
      locks := locks[key := Lock(true, Some(now))];
      return Ok(());
    }

    method FreeFifoLock(key: Key)
      modifies this
      ensures locks == Freed(old(locks), key)
    {
      if key in locks {
        locks := locks[key := Lock(false, None)];
      }
    }

    method CleanupStaleLocks(actor: string, ttl: nat, now: Time)
      modifies this
      ensures locks == Swept(old(locks), actor, ttl, now)
    {
      locks := map key | key in locks ::
        if key.actor == actor && IsStale(locks[key], ttl, now) then Lock(false, None) else locks[key];
    }
  }

  /*** The pollers ***/

  /** A poller between taking and freeing a lock. */
  datatype Hold = Hold(key: Key, since: Time)

  datatype State = State(locks: Locks, holds: map<Poller, Hold>, now: Time)

  datatype Step =
    | Tick(elapsed: nat)
    | Take(poller: Poller, key: Key)
    | Free(poller: Poller)
    | Crash(poller: Poller)
    | Sweep(actor: string)

  function Init(now: Time): State { State(map[], map[], now) }

  function Apply(ttl: nat, s: State, step: Step): State {
    match step
    case Tick(elapsed) => s.(now := s.now + elapsed)
    case Take(p, key) =>
      if p !in s.holds && CanTake(s.locks, key) then
        s.(locks := Taken(s.locks, key, s.now), holds := s.holds[p := Hold(key, s.now)])
      else s
    case Free(p) =>
      if p in s.holds then s.(locks := Freed(s.locks, s.holds[p].key), holds := s.holds - {p}) else s
    case Crash(p) => s.(holds := s.holds - {p})
    case Sweep(actor) => s.(locks := Swept(s.locks, actor, ttl, s.now))
  }

  /** The hypothesis: a sweep finds no poller of its actor that has worked for longer than the TTL. */
  predicate Timely(ttl: nat, s: State, step: Step) {
    step.Sweep? ==> forall p :: p in s.holds && s.holds[p].key.actor == step.actor ==> s.now - s.holds[p].since <= ttl
  }

  /** Every holder's lock is locked, as the holder locked it, and no two hold the same one. */
  predicate Inv(s: State) {
    && (forall p :: p in s.holds ==>
      s.holds[p].key in s.locks && s.locks[s.holds[p].key] == Lock(true, Some(s.holds[p].since)))
    && (forall p, q :: p in s.holds && q in s.holds && s.holds[p].key == s.holds[q].key ==> p == q)
  }

  lemma StepKeepsInv(ttl: nat, s: State, step: Step)
    requires Inv(s) && Timely(ttl, s, step)
    ensures Inv(Apply(ttl, s, step))
  {
  }

  function Exec(ttl: nat, s: State, steps: seq<Step>): State
    decreases |steps|
  {
    if steps == [] then s else Exec(ttl, Apply(ttl, s, steps[0]), steps[1..])
  }

  predicate TimelyRun(ttl: nat, s: State, steps: seq<Step>)
    decreases |steps|
  {
    steps == [] || (Timely(ttl, s, steps[0]) && TimelyRun(ttl, Apply(ttl, s, steps[0]), steps[1..]))
  }

  lemma {:induction false} RunKeepsInv(ttl: nat, s: State, steps: seq<Step>)
    requires Inv(s) && TimelyRun(ttl, s, steps)
    ensures Inv(Exec(ttl, s, steps))
    decreases |steps|
  {
    if steps != [] {
      StepKeepsInv(ttl, s, steps[0]);
      RunKeepsInv(ttl, Apply(ttl, s, steps[0]), steps[1..]);
    }
  }

  /** In every timely run one poller at most is between taking and freeing the lock of a reference. */
  lemma OneHolderPerReference(ttl: nat, start: Time, steps: seq<Step>, p: Poller, q: Poller)
    requires TimelyRun(ttl, Init(start), steps)
    requires var s := Exec(ttl, Init(start), steps);
      p in s.holds && q in s.holds && s.holds[p].key == s.holds[q].key
    ensures p == q
  {
    RunKeepsInv(ttl, Init(start), steps);
  }

  /** A lock that its holder frees may be taken at once, and only that lock. */
  lemma FreedMayBeTaken(ttl: nat, s: State, p: Poller, key: Key)
    requires Inv(s) && p in s.holds
    ensures CanTake(Apply(ttl, s, Free(p)).locks, key) <==> key == s.holds[p].key || CanTake(s.locks, key)
  {
  }

  /** A poller without a lock takes one exactly if nobody has it locked, and holds it from then on. */
  lemma TakesExactly(ttl: nat, s: State, p: Poller, key: Key)
    requires p !in s.holds
    ensures
      var s1 := Apply(ttl, s, Take(p, key));
      if key in s.locks && s.locks[key].locked then s1 == s
      else
        && p in s1.holds && s1.holds[p] == Hold(key, s.now)
        && key in s1.locks && s1.locks[key] == Lock(true, Some(s.now))
  {
  }

  /** A sweep keeps every holder's lock exactly when it is timely. */
  lemma SweepIsSafeExactlyWhenTimely(ttl: nat, s: State, actor: string)
    requires Inv(s)
    ensures Inv(Apply(ttl, s, Sweep(actor))) <==> Timely(ttl, s, Sweep(actor))
  {
    var s1 := Apply(ttl, s, Sweep(actor));
    if Inv(s1) {
      forall p | p in s.holds && s.holds[p].key.actor == actor
        ensures s.now - s.holds[p].since <= ttl
      {
        assert s1.locks[s1.holds[p].key] == Lock(true, Some(s1.holds[p].since));
      }
    }
  }

  /** After an untimely sweep the next poller takes the reference while the first still works on it. */
  lemma UntimelySweepAdmitsTwo(ttl: nat, s: State, p: Poller, q: Poller)
    requires Inv(s) && p in s.holds && q !in s.holds && ttl < s.now - s.holds[p].since
    ensures
      var key := s.holds[p].key;
      var s2 := Apply(ttl, Apply(ttl, s, Sweep(key.actor)), Take(q, key));
      p in s2.holds && q in s2.holds && p != q && s2.holds[p].key == s2.holds[q].key == key
  {
    var key := s.holds[p].key;
    var s1 := Apply(ttl, s, Sweep(key.actor));
    assert s.locks[key] == Lock(true, Some(s.holds[p].since));
    assert s1.locks[key] == Lock(false, None);
  }

  /** A holder that dies leaves its lock behind for the TTL and no longer: then anyone may take it. */
  lemma CrashedLockComesBack(ttl: nat, s: State, p: Poller, q: Poller, wait: nat)
    requires Inv(s) && p in s.holds && (q !in s.holds || q == p) && ttl < s.now + wait - s.holds[p].since
    ensures
      var key := s.holds[p].key;
      var s1 := Exec(ttl, s, [Crash(p), Tick(wait), Sweep(key.actor), Take(q, key)]);
      q in s1.holds && s1.holds[q].key == key
    ensures CanTake(Apply(ttl, s, Crash(p)).locks, s.holds[p].key) == false
  {
    var key := s.holds[p].key;
    var steps := [Crash(p), Tick(wait), Sweep(key.actor), Take(q, key)];
    var s1 := Apply(ttl, s, steps[0]);
    var s2 := Apply(ttl, s1, steps[1]);
    var s3 := Apply(ttl, s2, steps[2]);
    assert s2.locks[key] == Lock(true, Some(s.holds[p].since));
    assert s3.locks[key] == Lock(false, None);
    var s4 := Apply(ttl, s3, steps[3]);
    assert steps[1..][1..] == steps[2..] && steps[2..][1..] == steps[3..] && steps[3..][1..] == [];
    assert Exec(ttl, s3, steps[3..]) == s4;
    assert Exec(ttl, s2, steps[2..]) == s4;
    assert Exec(ttl, s1, steps[1..]) == s4;
  }
}
