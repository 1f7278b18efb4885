/** The list of a request, paged out: the pager over what the request's plan selects and scans. */
module BucketPaging {
  import opened Wrappers
  import opened BucketPlan
  import opened BucketRead
  import opened KeysetPaging

  /** A read in progress: the request, its plan and the page size. */
  datatype Read = Read(b: Bucket, query: Query, plan: Plan, limit: nat)
  {
    predicate Ready() {
      query.Valid(b) && IsPlanOf(b, query, plan) && Fillable(b, plan, query) && limit >= 1
    }
  }

  /** The collection when a page's edge is read, and when its rows are. */
  datatype Snapshot = Snapshot(atEdge: set<Row>, atRows: set<Row>)
  {
    predicate Valid() { UniqueIds(atEdge) && UniqueIds(atRows) }
  }

  /** What the scan for the edge counts: the index's conditions, with no null among the filled values. */
  predicate IsScanned(read: Read, row: Row)
    requires read.Ready()
  {
    && Meets(BoundPart(read.b, read.query, read.plan), row)
    && Meets(FilledPart(read.b, read.query, read.plan, false), row)
    && HasRef(read.query, row)
    && InRange(read.query, row)
  }

  function Selected(read: Read, c: set<Row>): set<Row>
    requires read.Ready()
  {
    set r | r in c && Selects(read.b, read.query, read.plan, r)
  }

  function SourceOf(read: Read, snap: Snapshot): (source: Source)
    requires read.Ready()
    ensures snap.Valid() ==> source.Valid()
  {
    Source(
      Selected(read, snap.atRows),
      if read.plan.kind == Bounded then Some(set r | r in snap.atEdge && IsScanned(read, r)) else None)
  }

  function SourcesOf(read: Read, snaps: seq<Snapshot>): (sources: seq<Source>)
    requires read.Ready() && forall i :: 0 <= i < |snaps| ==> snaps[i].Valid()
    ensures |sources| == |snaps| && AllValid(sources)
    ensures forall i :: 0 <= i < |snaps| ==> sources[i] == SourceOf(read, snaps[i])
  {
    seq(|snaps|, i requires 0 <= i < |snaps| => SourceOf(read, snaps[i]))
  }

  /** The walk a client makes by following `next` and `keepLooking` from the first page. */
  ghost function FollowCursors(read: Read, snaps: seq<Snapshot>): Walk
    requires read.Ready() && forall i :: 0 <= i < |snaps| ==> snaps[i].Valid()
  {
    WalkFrom(SourcesOf(read, snaps), read.limit, None)
  }

  /** The ids keep their times from snapshot to snapshot; everything else may change. */
  predicate KeepTimes(snaps: seq<Snapshot>) {
    forall i, j :: 0 <= i < |snaps| && 0 <= j < |snaps| ==>
      forall r, r' :: r in snaps[i].atRows && r' in snaps[j].atRows && r.id == r'.id ==> r.time == r'.time
  }

  /** At every page's read the collection holds a row at `p` that is selected; its facts may differ. */
  predicate IsSelectedThroughout(read: Read, snaps: seq<Snapshot>, p: Position)
    requires read.Ready()
  {
    forall i :: 0 <= i < |snaps| ==> IsPositionIn(Selected(read, snaps[i].atRows), p)
  }

  predicate IsDelivered(walk: Walk, p: Position) {
    exists r :: r in walk.rows && PositionOf(r) == p
  }

  /**
   With rows inserted, deleted and changed between any two reads: no row is delivered
   twice, every row delivered was selected when its page was read, and once the walk
   completes every row that was selected throughout has been delivered.
   */
  lemma WalkDeliversExactlyOnce(read: Read, snaps: seq<Snapshot>)
    requires read.Ready() && (forall i :: 0 <= i < |snaps| ==> snaps[i].Valid()) && KeepTimes(snaps)
    ensures
      var walk := FollowCursors(read, snaps);
      && (forall i, j :: 0 <= i < j < |walk.rows| ==> walk.rows[i].id != walk.rows[j].id)
      && (forall r :: r in walk.rows ==> exists i :: 0 <= i < |snaps| && r in Selected(read, snaps[i].atRows))
      && (walk.complete ==> forall p :: IsSelectedThroughout(read, snaps, p) ==> IsDelivered(walk, p))
  {
    var sources := SourcesOf(read, snaps);
    var walk := FollowCursors(read, snaps);
    assert TimesAreStable(sources);
    forall i, j | 0 <= i < j < |walk.rows|
      ensures walk.rows[i].id != walk.rows[j].id
    {
      NoRowTwice(sources, read.limit, i, j);
    }
    WalkIsInOrder(sources, read.limit, None);
    forall r | r in walk.rows
      ensures exists i :: 0 <= i < |snaps| && r in Selected(read, snaps[i].atRows)
    {
      var i :| 0 <= i < |sources| && r in sources[i].selected;
      assert r in Selected(read, snaps[i].atRows);
    }
    if walk.complete {
      forall p | IsSelectedThroughout(read, snaps, p)
        ensures IsDelivered(walk, p)
      {
        EveryLastingRowIsDelivered(sources, read.limit, None, p);
      }
    }
  }

  /** The same collection at every read. */
  function Still(c: set<Row>, n: nat): (snaps: seq<Snapshot>)
    ensures |snaps| == n && forall i :: 0 <= i < n ==> snaps[i] == Snapshot(c, c)
  {
    seq(n, _ => Snapshot(c, c))
  }

  /** Over a collection that stays as it is the walk ends, and its pages make the sorted list of what is selected. */
  lemma StillWalkIsTheList(read: Read, c: set<Row>, n: nat)
    requires read.Ready() && UniqueIds(c) && |c| < n
    ensures FollowCursors(read, Still(c, n)) == Walk(SortDesc(Selected(read, c)), true)
  {
    var source := SourceOf(read, Snapshot(c, c));
    assert SourcesOf(read, Still(c, n)) == Unchanging(source, n);
    PagesMakeTheSortedList(source, read.limit, c, n);
  }

  /**
   The list a request is for does not depend on the plan: over well stored rows any
   plan, exact or bounded, pages out the wanted rows, newest first.
   */
  lemma AnyPlanPagesTheWantedList(read: Read, c: set<Row>, n: nat)
    requires read.Ready() && UniqueIds(c) && |c| < n && (forall r :: r in c ==> WellStored(read.b, r))
    ensures
      FollowCursors(read, Still(c, n)) == Walk(SortDesc(set r | r in c && Wanted(read.b, read.query, r)), true)
  {
    forall r | r in c
      ensures Selects(read.b, read.query, read.plan, r) <==> Wanted(read.b, read.query, r)
    {
      PlansAgree(read.b, read.query, read.plan, read.plan, r);
    }
    assert Selected(read, c) == set r | r in c && Wanted(read.b, read.query, r);
    StillWalkIsTheList(read, c, n);
  }

  /** What a count answers: the rows the index's conditions match, up to a cap, and whether it stopped there. */
  datatype Count = Count(count: nat, capped: bool)

  function ReadCount(read: Read, c: set<Row>, cap: nat): Count
    requires read.Ready()
  {
    var found := |set r | r in c && Matches(read.b, read.query, read.plan, r)|;
    Count(if found <= cap then found else cap, found > cap)
  }

  /** An exact plan counts the very rows its list pages out. */
  lemma ExactCountIsTheListsLength(read: Read, c: set<Row>, cap: nat, n: nat)
    requires read.Ready() && read.plan.kind == Exact && UniqueIds(c) && |c| < n
    ensures
      var length := |FollowCursors(read, Still(c, n)).rows|;
      ReadCount(read, c, cap) == Count(if length <= cap then length else cap, length > cap)
  {
    forall r | r in c
      ensures Matches(read.b, read.query, read.plan, r) <==> Selects(read.b, read.query, read.plan, r)
    {
      ExactCountsWhatIsListed(read.b, read.query, read.plan, r);
    }
    assert (set r | r in c && Matches(read.b, read.query, read.plan, r)) == Selected(read, c);
    StillWalkIsTheList(read, c, n);
    SortDescLists(Selected(read, c));
  }
}
