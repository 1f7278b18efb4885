/**
 Loading an agreement definition: the newest usable version is resolved and loaded,
 and one that is permanently unusable is recorded and passed over for an older one.
 */
module DefinitionLoading {
  import opened Wrappers

  datatype Semver = Semver(major: nat, minor: nat, patch: nat)

  datatype FetchStatus = Pending | Fetched | TransientError | PermanentError

  /** One version's agreement definition in the catalogue; `located` if it has a file to fetch. */
  datatype Entry = Entry(active: bool, located: bool, status: FetchStatus)

  type Catalogue = map<Semver, Entry>

  type Compiled = string

  datatype Resolution = Creation | SameMajor | ExactVersion

  predicate CanFallBack(resolution: Resolution) {
    !resolution.ExactVersion?
  }

  /*** Failures ***/

  /** What can go wrong: a service address missing here, the file, or the definition in it (or anything else). */
  datatype Error = EndpointUrl | FileFetch(isPermanent: bool, isParseError: bool) | Other(isBoom: bool)

  datatype Class = Class(status: FetchStatus, recorded: bool)

  /** No retry can mend it: the file is missing, forbidden or unreadable, or the definition in it is invalid. */
  predicate IsHopeless(e: Error) {
    e in {FileFetch(true, false), FileFetch(false, true), FileFetch(true, true), Other(true)}
  }

  function ClassifyFailure(e: Error): (c: Class)
    ensures c.status == if IsHopeless(e) then PermanentError else TransientError
    ensures c.recorded <==> e != EndpointUrl
  {
    match e
    case EndpointUrl => Class(TransientError, false)
    case FileFetch(isPermanent, isParseError) =>
      Class(if isPermanent || isParseError then PermanentError else TransientError, true)
    case Other(isBoom) => Class(if isBoom then PermanentError else TransientError, true)
  }

  /** What falling back asks of a failure. */
  predicate IsPermanent(e: Error) {
    ClassifyFailure(e).status == PermanentError
  }

  /*** Resolving ***/

  /** The order of versions within one major. */
  predicate AtMost(v: Semver, w: Semver): (r: bool)
    ensures r <==> !(v.minor > w.minor || (v.minor == w.minor && v.patch > w.patch))
  {
    v.minor < w.minor || (v.minor == w.minor && v.patch <= w.patch)
  }

  /** The versions a request is for: of its major, and when creating not above it. */
  predicate InScope(resolution: Resolution, requested: Semver, v: Semver) {
    match resolution
    case ExactVersion => v == requested
    case SameMajor => v.major == requested.major
    case Creation => v.major == requested.major && AtMost(v, requested)
  }

  /** Whether a version could be the target now; the very version asked for on creation needs no file. */
  predicate IsEligible(resolution: Resolution, requested: Semver, cat: Catalogue, v: Semver) {
    && v in cat && InScope(resolution, requested, v)
    && (resolution.ExactVersion? ||
        (cat[v].active && cat[v].status != PermanentError &&
          (cat[v].located || (resolution.Creation? && v == requested))))
  }

  function Eligible(resolution: Resolution, requested: Semver, cat: Catalogue): set<Semver> {
    set v | v in cat && IsEligible(resolution, requested, cat, v)
  }

  predicate IsGreatest(v: Semver, vs: set<Semver>) {
    v in vs && forall w :: w in vs ==> AtMost(w, v)
  }

  lemma {:induction false} SomethingIsGreatest(vs: set<Semver>) returns (v: Semver)
    requires vs != {}
    ensures IsGreatest(v, vs)
    decreases |vs|
  {
    var w :| w in vs;
    if vs == {w} {
      v := w;
    } else {
      var u := SomethingIsGreatest(vs - {w});
      v := if AtMost(u, w) then w else u;
      assert forall x :: x in vs ==> x == w || x in vs - {w};
    }
  }

  /*** Loading ***/

  /** What loading a version gives when asked: what is compiled already, or what its file turns out to be. */
  function Gives(
    compiled: map<Semver, Compiled>, loads: Semver -> Result<Compiled, Error>, v: Semver): Result<Compiled, Error> {
    if v in compiled then Ok(compiled[v]) else loads(v)
  }

  function WithStatus(cat: Catalogue, v: Semver, status: FetchStatus): Catalogue {
    if v in cat then cat[v := cat[v].(status := status)] else cat
  }

  /** The catalogue after one load. */
  function AfterLoad(
    cat: Catalogue, compiled: map<Semver, Compiled>, loads: Semver -> Result<Compiled, Error>, v: Semver): Catalogue {
    if v in compiled then cat
    else
      match loads(v)
      case Ok(_) => WithStatus(cat, v, Fetched)
      case Err(e) =>
        if e == EndpointUrl then cat else WithStatus(cat, v, if IsHopeless(e) then PermanentError else TransientError)
  }

  /** What a load writes down of a version seen at some status; only one seen as fetched needs no success recorded. */
  function Recorded(cat: Catalogue, v: Semver, seen: FetchStatus, given: Result<Compiled, Error>): Catalogue {
    match given
    case Ok(_) => if seen == Fetched then cat else WithStatus(cat, v, Fetched)
    case Err(e) =>
      if e == EndpointUrl then cat else WithStatus(cat, v, if IsHopeless(e) then PermanentError else TransientError)
  }

  /** How a version loads: one known to be bad is refused outright unless it is in memory. */
  predicate IsLoaded(
    cat: Catalogue, compiled: map<Semver, Compiled>, loads: Semver -> Result<Compiled, Error>, v: Semver,
    r: Result<Compiled, Error>, after: Catalogue)
  {
    v in cat &&
    if v !in compiled && cat[v].status == PermanentError then r == Err(Other(true)) && after == cat
    else r == Gives(compiled, loads, v) && after == AfterLoad(cat, compiled, loads, v)
  }

  /**
   What others leave of the catalogue: before the first target is resolved, while it loads, before
   the second, and so on.
   */
  type Others = (nat, Catalogue) -> Catalogue

  predicate FailsPermanently(compiled: map<Semver, Compiled>, loads: Semver -> Result<Compiled, Error>, v: Semver) {
    Gives(compiled, loads, v).Err? && IsHopeless(Gives(compiled, loads, v).error)
  }

  /** One load: what is asked for, and the catalogue, the memory and the files it starts from. */
  datatype Load = Load(
    resolution: Resolution,
    requested: Semver,
    cat: Catalogue,
    compiled: map<Semver, Compiled>,
    loads: Semver -> Result<Compiled, Error>)
  {
    /** The version is eligible to begin with. */
    predicate Offers(v: Semver) {
      IsEligible(resolution, requested, cat, v)
    }

    predicate Fails(v: Semver) {
      FailsPermanently(compiled, loads, v)
    }
  }

  /** The greatest eligible version that does not fail for good: every eligible one above it does. */
  ghost predicate IsPivot(q: Load, v: Semver) {
    && q.Offers(v)
    && !q.Fails(v)
    && forall w :: q.Offers(w) && !AtMost(w, v) ==> q.Fails(w)
  }

  /** Versions recorded as failed for good. */
  function Marked(cat: Catalogue, failed: set<Semver>): Catalogue {
    map v | v in cat :: if v in failed then cat[v].(status := PermanentError) else cat[v]
  }

  datatype LoadError = Unavailable | LoadFailed(error: Error)

  class Definitions {
    var catalogue: Catalogue
    var compiled: map<Semver, Compiled>

    constructor (catalogue: Catalogue)
      ensures this.catalogue == catalogue && compiled == map[]
    {
      this.catalogue, compiled := catalogue, map[];
    }

    /** The newest active version with a file, not failed for good, of a major and perhaps not above a bound. */
    method FindLatestUsableDefinition(major: nat, bound: Option<Semver>) returns (t: Option<Semver>)
      ensures
        var usable := set v | v in catalogue && v.major == major && (bound.Some? ==> AtMost(v, bound.value)) &&
          catalogue[v].active && catalogue[v].located && catalogue[v].status != PermanentError;
        && (t.None? <==> usable == {})
        && (t.Some? ==> IsGreatest(t.value, usable))
    {
      var usable := set v | v in catalogue && v.major == major && (bound.Some? ==> AtMost(v, bound.value)) &&
        catalogue[v].active && catalogue[v].located && catalogue[v].status != PermanentError;
      if usable == {} {
        return None;
      }
      var greatest := SomethingIsGreatest(usable);
      var v :| v in usable && forall w :: w in usable ==> AtMost(w, v);
      t := Some(v);
    }

    /** The target is the greatest eligible version, if there is any. */
    method ResolveTarget(resolution: Resolution, requested: Semver) returns (t: Option<Semver>)
      ensures t.None? <==> Eligible(resolution, requested, catalogue) == {}
      ensures t.Some? ==> IsGreatest(t.value, Eligible(resolution, requested, catalogue))
      ensures t.Some? ==> forall v :: v in Eligible(resolution, requested, catalogue) ==>
        v.minor < t.value.minor || (v.minor == t.value.minor && v.patch <= t.value.patch)
    {
      ghost var eligible := Eligible(resolution, requested, catalogue);
      match resolution
      case ExactVersion =>
        t := if requested in catalogue then Some(requested) else None;
        assert requested in catalogue ==> eligible == {requested};
        assert requested !in catalogue ==> eligible == {};
      case SameMajor =>
        t := FindLatestUsableDefinition(requested.major, None);
        assert eligible == set v | v in catalogue && v.major == requested.major &&
          catalogue[v].active && catalogue[v].located && catalogue[v].status != PermanentError;
      case Creation =>
        if requested in catalogue && catalogue[requested].active && catalogue[requested].status != PermanentError {
          assert requested in eligible;
          return Some(requested);
        }
        t := FindLatestUsableDefinition(requested.major, Some(requested));
        assert eligible == set v | v in catalogue && v.major == requested.major && AtMost(v, requested) &&
          catalogue[v].active && catalogue[v].located && catalogue[v].status != PermanentError;
    }

    method UpdateDefinitionFetchStatus(v: Semver, status: FetchStatus)
      modifies this`catalogue
      ensures catalogue == WithStatus(old(catalogue), v, status)
    {
      if v in catalogue {
        catalogue := catalogue[v := catalogue[v].(status := status)];
      }
    }

    /**
     Loads one version as it was seen when it became the target: from memory, or by its
     file unless it was seen to be bad; and records how that went, whatever the catalogue
     has become meanwhile.
     */
    method LoadCompiled(
      v: Semver, seen: FetchStatus, loads: Semver -> Result<Compiled, Error>, meanwhile: Catalogue -> Catalogue)
      returns (r: Result<Compiled, Error>)
      modifies this
      ensures r ==
        if v in old(compiled) then Ok(old(compiled)[v])
        else if seen == PermanentError then Err(Other(true))
        else loads(v)
      ensures catalogue ==
        if v in old(compiled) || seen == PermanentError then old(catalogue)
        else Recorded(meanwhile(old(catalogue)), v, seen, loads(v))
      ensures compiled == if r.Ok? then old(compiled)[v := r.value] else old(compiled)
      ensures v !in old(compiled) && seen != PermanentError && v in meanwhile(old(catalogue)) ==>
        && (loads(v).Ok? ==> v in catalogue && (seen == Fetched || catalogue[v].status == Fetched))
        && (loads(v) in {
                Err(FileFetch(true, false)), Err(FileFetch(false, true)), Err(FileFetch(true, true)),
                  Err(Other(true))} ==>
              v in catalogue && catalogue[v].status == PermanentError)
        && (loads(v) in {Err(FileFetch(false, false)), Err(Other(false))} ==>
              v in catalogue && catalogue[v].status == TransientError)
        && (loads(v) == Err(EndpointUrl) ==> catalogue == meanwhile(old(catalogue)))
    {
      if v in compiled {
        return Ok(compiled[v]);
      }
      if seen == PermanentError {
        return Err(Other(true));
      }
      r := loads(v);
      catalogue := meanwhile(catalogue);
      match r
      case Ok(d) =>
        if seen != Fetched {
          UpdateDefinitionFetchStatus(v, Fetched);
        }
        compiled := compiled[v := d];
      case Err(e) =>
        var verdict := ClassifyFailure(e);
        if verdict.recorded {
          UpdateDefinitionFetchStatus(v, verdict.status);
        }
    }

    /**
     Loads a definition. However others change the catalogue it ends, with a version of the
     scope asked for; if they leave it alone, with the one `IsSettled` says.
     */
    method LoadAgreementDefinition(
      resolution: Resolution, requested: Semver, loads: Semver -> Result<Compiled, Error>, others: Others,
      ghost known: set<Semver>)
      returns (r: Result<Compiled, LoadError>)
      requires catalogue.Keys <= known && StaysWithin(others, known)
      modifies this
      ensures r.Ok? ==> exists v :: InScope(resolution, requested, v) && Gives(old(compiled), loads, v) == Ok(r.value)
      ensures IsQuiet(others) ==>
        IsSettled(Load(resolution, requested, old(catalogue), old(compiled), loads), r, catalogue)
    {
      var attempted: set<Semver> := {};
      var i := 0;
      ghost var q := Load(resolution, requested, catalogue, compiled, loads);
      while true
        invariant attempted <= known && catalogue.Keys <= known && compiled == q.compiled
        invariant resolution.ExactVersion? ==> attempted == {}
        invariant IsQuiet(others) ==> HasPassedOver(q, attempted, catalogue)
        decreases |known - attempted|
      {
        catalogue := others(2 * i, catalogue);
        var target := ResolveTarget(resolution, requested);
        if target.None? {
          if IsQuiet(others) {
            NothingLeftSettles(q, attempted, catalogue);
          }
          return Err(Unavailable);
        }
        var v := target.value;
        if v in attempted {
          if IsQuiet(others) {
            TargetIsNew(q, attempted, catalogue, v);
            assert false;
          }
          break;
        }
        ghost var before := catalogue;
        var loaded := LoadCompiled(v, catalogue[v].status, loads, c => others(2 * i + 1, c));
        WritesWithin(others(2 * i + 1, before), v, before[v].status, loads(v));
        if IsQuiet(others) {
          LoadedUndisturbed(q, before, v, loaded, catalogue);
          TargetSettles(q, attempted, before, v, loaded, catalogue);
        }
        if loaded.Ok? {
          return Ok(loaded.value);
        }
        if !CanFallBack(resolution) || !IsPermanent(loaded.error) {
          return Err(LoadFailed(loaded.error));
        }
        OneLessToTry(known, attempted, v);
        attempted := attempted + {v};
        i := i + 1;
      }
      r := Err(Unavailable);
    }
  }

  /*** What loading settles on ***/

  ghost predicate IsQuiet(others: Others) {
    forall i, c :: others(i, c) == c
  }

  /** However often they write, there are only so many versions. */
  ghost predicate StaysWithin(others: Others, known: set<Semver>) {
    forall i, c: Catalogue :: c.Keys <= known ==> others(i, c).Keys <= known
  }

  function Above(q: Load, v: Semver): set<Semver> {
    set w | w in q.cat && q.Offers(w) && !AtMost(w, v)
  }

  /**
   With fallback: the greatest eligible version that does not fail for good decides, by
   what it compiles to or by its own transient failure, and all above it are recorded
   as failed for good; if there is none, all are. The exact version alone decides otherwise.
   */
  ghost predicate IsSettled(q: Load, r: Result<Compiled, LoadError>, after: Catalogue) {
    if q.resolution.ExactVersion? then
      if q.requested !in q.cat then r == Err(Unavailable) && after == q.cat
      else exists given :: IsLoaded(q.cat, q.compiled, q.loads, q.requested, given, after) && IsResultOf(given, r)
    else if r == Err(Unavailable) then
      && (forall v :: q.Offers(v) ==> q.Fails(v))
      && after == Marked(q.cat, Eligible(q.resolution, q.requested, q.cat))
    else
      exists v :: IsPivot(q, v) &&
        IsResultOf(Gives(q.compiled, q.loads, v), r) &&
        after == AfterLoad(Marked(q.cat, Above(q, v)), q.compiled, q.loads, v)
  }

  predicate IsResultOf(given: Result<Compiled, Error>, r: Result<Compiled, LoadError>) {
    match given
    case Ok(d) => r == Ok(d)
    case Err(e) => r == Err(LoadFailed(e))
  }

  /** What has been tried so far: eligible, failed for good and recorded, with nothing above left out. */
  ghost predicate HasPassedOver(q: Load, attempted: set<Semver>, now: Catalogue) {
    && now == Marked(q.cat, attempted)
    && (forall v :: v in attempted ==> q.Offers(v) && q.Fails(v))
    && (forall v, w :: v in attempted && q.Offers(w) && !AtMost(w, v) ==> w in attempted)
  }

  /** What is eligible now is what was, less what has been tried. */
  lemma StillEligible(q: Load, attempted: set<Semver>, now: Catalogue)
    requires HasPassedOver(q, attempted, now)
    requires q.resolution.ExactVersion? ==> attempted == {}
    ensures forall v :: IsEligible(q.resolution, q.requested, now, v) <==> q.Offers(v) && v !in attempted
    ensures Eligible(q.resolution, q.requested, now) == Eligible(q.resolution, q.requested, q.cat) - attempted
    ensures attempted <= Eligible(q.resolution, q.requested, q.cat)
    ensures attempted == {} ==> now == q.cat
  {
    assert attempted <= Eligible(q.resolution, q.requested, q.cat);
  }

  /** The target now is the pivot, unless it fails for good; then it has been passed over as well. */
  lemma TargetDecides(q: Load, attempted: set<Semver>, now: Catalogue, v: Semver)
    requires !q.resolution.ExactVersion? && HasPassedOver(q, attempted, now)
    requires IsGreatest(v, Eligible(q.resolution, q.requested, now))
    ensures !q.Fails(v) ==>
      && IsPivot(q, v)
      && attempted == Above(q, v)
    ensures q.Fails(v) ==>
      HasPassedOver(q, attempted + {v}, AfterLoad(now, q.compiled, q.loads, v))
  {
    StillEligible(q, attempted, now);
    forall w | q.Offers(w)
      ensures w in attempted <==> !AtMost(w, v)
    {
      assert w in Eligible(q.resolution, q.requested, now) || w in attempted;
    }
    if q.Fails(v) {
      assert AfterLoad(now, q.compiled, q.loads, v) == Marked(q.cat, attempted + {v});
    }
  }

  lemma WritesWithin(cat: Catalogue, v: Semver, seen: FetchStatus, given: Result<Compiled, Error>)
    ensures Recorded(cat, v, seen, given).Keys == cat.Keys
  {
  }

  /** Undisturbed, a version is loaded as it stands. */
  lemma LoadedUndisturbed(q: Load, cat: Catalogue, v: Semver, r: Result<Compiled, Error>, after: Catalogue)
    requires v in cat
    requires r ==
      if v in q.compiled then Ok(q.compiled[v])
      else if cat[v].status == PermanentError then Err(Other(true))
      else q.loads(v)
    requires after ==
      if v in q.compiled || cat[v].status == PermanentError then cat else Recorded(cat, v, cat[v].status, q.loads(v))
    ensures IsLoaded(cat, q.compiled, q.loads, v, r, after)
  {
    if cat[v].status == Fetched {
      assert WithStatus(cat, v, Fetched) == cat;
    }
  }

  lemma OneLessToTry(known: set<Semver>, attempted: set<Semver>, v: Semver)
    requires v in known && v !in attempted
    ensures |known - (attempted + {v})| < |known - attempted|
  {
    assert known - (attempted + {v}) == (known - attempted) - {v};
  }

  lemma TargetIsNew(q: Load, attempted: set<Semver>, now: Catalogue, v: Semver)
    requires HasPassedOver(q, attempted, now)
    requires q.resolution.ExactVersion? ==> attempted == {}
    requires v in Eligible(q.resolution, q.requested, now)
    ensures v !in attempted
  {
    StillEligible(q, attempted, now);
  }

  lemma NothingLeftSettles(q: Load, attempted: set<Semver>, now: Catalogue)
    requires HasPassedOver(q, attempted, now)
    requires q.resolution.ExactVersion? ==> attempted == {}
    requires Eligible(q.resolution, q.requested, now) == {}
    ensures IsSettled(q, Err(Unavailable), now)
  {
    StillEligible(q, attempted, now);
    if q.resolution.ExactVersion? {
      assert q.requested !in q.cat by {
        assert q.Offers(q.requested) ==> q.requested in Eligible(q.resolution, q.requested, now);
      }
    } else {
      var all := Eligible(q.resolution, q.requested, q.cat);
      assert all - attempted == {} && forall v :: v in all ==> v in attempted || v in all - attempted;
      assert attempted == all;
      forall v | q.Offers(v)
        ensures q.Fails(v)
      {
        assert v in Eligible(q.resolution, q.requested, q.cat);
      }
    }
  }

  lemma TargetSettles(
    q: Load, attempted: set<Semver>, now: Catalogue, v: Semver, given: Result<Compiled, Error>, after: Catalogue)
    requires HasPassedOver(q, attempted, now)
    requires q.resolution.ExactVersion? ==> attempted == {}
    requires IsGreatest(v, Eligible(q.resolution, q.requested, now))
    requires IsLoaded(now, q.compiled, q.loads, v, given, after)
    ensures given.Ok? ==> IsSettled(q, Ok(given.value), after)
    ensures given.Err? && (!CanFallBack(q.resolution) || !IsPermanent(given.error)) ==>
      IsSettled(q, Err(LoadFailed(given.error)), after)
    ensures given.Err? && CanFallBack(q.resolution) && IsPermanent(given.error) ==>
      HasPassedOver(q, attempted + {v}, after)
  {
    if q.resolution.ExactVersion? {
      StillEligible(q, attempted, now);
      assert v == q.requested && now == q.cat;
      assert IsLoaded(q.cat, q.compiled, q.loads, q.requested, given, after);
    } else {
      TargetDecides(q, attempted, now, v);
      assert IsEligible(q.resolution, q.requested, now, v) && given == Gives(q.compiled, q.loads, v);
    }
  }

  /** What settles is determined: there is one pivot, and no eligible version above it loads. */
  lemma PivotIsUnique(q: Load, v: Semver)
    requires IsPivot(q, v)
    ensures forall w :: IsPivot(q, w) ==> w == v
    ensures forall w :: q.Offers(w) && Gives(q.compiled, q.loads, w).Ok? ==> AtMost(w, v)
    ensures
      var after := AfterLoad(Marked(q.cat, Above(q, v)), q.compiled, q.loads, v);
      forall w :: q.Offers(w) && !AtMost(w, v) ==> w in after && after[w].status == PermanentError
  {
    forall w | IsPivot(q, w)
      ensures w == v
    {
      assert AtMost(v, w) && AtMost(w, v);
      assert v.major == w.major;
    }
  }

  /*** What settling says of failures ***/

  /** The file of a version cannot be mended: by the error itself. */
  predicate CannotBeMended(q: Load, v: Semver) {
    && v !in q.compiled
    && q.loads(v) in {
         Err(FileFetch(true, false)), Err(FileFetch(false, true)), Err(FileFetch(true, true)), Err(Other(true))}
  }

  /** A version that is newly recorded as failed for good gave an error that nothing can mend. */
  lemma OnlyHopelessIsRecordedForGood(q: Load, r: Result<Compiled, LoadError>, after: Catalogue, v: Semver)
    requires IsSettled(q, r, after)
    requires v in q.cat && v in after && after[v].status == PermanentError && q.cat[v].status != PermanentError
    ensures CannotBeMended(q, v)
  {
    if q.Fails(v) {
      assert IsHopeless(q.loads(v).error);
    }
  }

  /**
   With fallback a failure is passed on only if something may mend it: then the version it is
   of is recorded as failing for now, or not at all if the fault is of this place alone; all
   eligible versions above it are recorded as failed for good.
   */
  lemma MendableFailuresAreThrown(q: Load, e: Error, after: Catalogue) returns (v: Semver)
    requires IsSettled(q, Err(LoadFailed(e)), after) && !q.resolution.ExactVersion?
    ensures e in {EndpointUrl, FileFetch(false, false), Other(false)}
    ensures IsPivot(q, v) && v !in q.compiled && q.loads(v) == Err(e)
    ensures v in after && after[v].status == if e == EndpointUrl then q.cat[v].status else TransientError
    ensures forall w :: q.Offers(w) && !AtMost(w, v) ==> w in after && after[w].status == PermanentError
  {
    v :| IsPivot(q, v) && IsResultOf(Gives(q.compiled, q.loads, v), Err(LoadFailed(e))) &&
      after == AfterLoad(Marked(q.cat, Above(q, v)), q.compiled, q.loads, v);
    assert v !in Above(q, v);
  }
}
