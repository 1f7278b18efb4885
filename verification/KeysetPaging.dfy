/**
 The pager itself: one page of a list, read after a cursor and, for a bounded read,
 down to the edge a scan budget reaches; and the walk from cursor to cursor. What a
 read selects and scans in the collection of the moment is given to it as two sets.
 */
module KeysetPaging {
  import opened Wrappers
  import opened BucketRead

  type Time = int

  const SCAN_BUDGET: nat := 20_000

  /** Where a row stands in every list: newest first, and by id within one instant. */
  datatype Position = Position(time: Time, id: Id)

  function PositionOf(row: Row): Position { Position(row.time, row.id) }

  predicate Before(p: Position, q: Position) {
    p.time > q.time || (p.time == q.time && p.id > q.id)
  }

  /** `row` comes before every other row of `c`. */
  predicate IsNewest(c: set<Row>, row: Row) {
    row in c && forall q :: q in c && q != row ==> Before(PositionOf(row), PositionOf(q))
  }

  predicate Descending(rows: seq<Row>) {
    forall i, j :: 0 <= i < j < |rows| ==> Before(PositionOf(rows[i]), PositionOf(rows[j]))
  }

  /** No two documents of a collection share an id. */
  predicate UniqueIds(c: set<Row>) {
    forall r, r' :: r in c && r' in c && r.id == r'.id ==> r == r'
  }

  /*** Sorted reads ***/

  lemma {:induction false} HasNewest(c: set<Row>)
    requires c != {} && UniqueIds(c)
    ensures exists r :: IsNewest(c, r)
    decreases |c|
  {
    var x :| x in c;
    var rest := c - {x};
    if rest == {} {
      assert c == {x};
      assert IsNewest(c, x);
    } else {
      assert |rest| < |c|;
      HasNewest(rest);
      var r :| IsNewest(rest, r);
      assert IsNewest(c, if Before(PositionOf(r), PositionOf(x)) then r else x);
    }
  }

  /** The rows of a set, newest first. */
  ghost function SortDesc(c: set<Row>): seq<Row>
    requires UniqueIds(c)
    decreases |c|
  {
    if c == {} then []
    else
      HasNewest(c);
      var r :| IsNewest(c, r);
      assert |c - {r}| < |c|;
      [r] + SortDesc(c - {r})
  }

  predicate Lists(rows: seq<Row>, c: set<Row>) {
    && Descending(rows) && |rows| == |c|
    && (forall r :: r in rows ==> r in c)
    && (forall r :: r in c ==> r in rows)
  }

  lemma {:induction false} SortDescLists(c: set<Row>)
    requires UniqueIds(c)
    ensures Lists(SortDesc(c), c)
    decreases |c|
  {
    if c != {} {
      var sorted := SortDesc(c);
      var r := sorted[0];
      assert IsNewest(c, r) && sorted == [r] + SortDesc(c - {r}) && |c - {r}| == |c| - 1;
      SortDescLists(c - {r});
    }
  }

  /** A descending list is determined by what is in it. */
  lemma {:induction false} DescendingIsUnique(xs: seq<Row>, ys: seq<Row>)
    requires Descending(xs) && Descending(ys) && forall r :: r in xs <==> r in ys
    ensures xs == ys
    decreases |xs|
  {
    assert xs != [] ==> xs[0] in ys;
    assert ys != [] ==> ys[0] in xs;
    if xs != [] {
      forall r
        ensures r in xs[1..] <==> r in ys[1..]
      {
        if r in xs[1..] {
          assert r in ys;
        }
        if r in ys[1..] {
          assert r in xs;
        }
      }
      DescendingIsUnique(xs[1..], ys[1..]);
    }
  }

  /*** One page ***/

  type Cursor = Option<Position>

  /** The keyset conditions: no later than the cursor's time, and not at or above it within that time. */
  predicate AfterCursor(cursor: Cursor, row: Row) {
    cursor.Some? ==>
      && row.time <= cursor.value.time
      && !(row.time == cursor.value.time && row.id >= cursor.value.id)
  }

  predicate OlderThanCursor(cursor: Cursor, row: Row) {
    cursor.Some? ==> row.time < cursor.value.time
  }

  predicate WithinEdge(edge: Cursor, row: Row) {
    edge.Some? ==>
      && row.time >= edge.value.time
      && !(row.time == edge.value.time && row.id < edge.value.id)
  }

  /**
   What one page is read from: the rows its conditions select, and, for a bounded
   read, those the scan for its edge counts. The collection may change between the two.
   */
  datatype Source = Source(selected: set<Row>, scanned: Option<set<Row>>)
  {
    predicate Valid() {
      UniqueIds(selected) && (scanned.Some? ==> UniqueIds(scanned.value))
    }
  }

  /** The row the scan budget runs out on, strictly older than the cursor; none if it reaches the end. */
  ghost function EdgeOf(source: Source, cursor: Cursor): Cursor
    requires source.Valid()
  {
    if source.scanned.None? then None
    else
      var scanned := SortDesc(set r | r in source.scanned.value && OlderThanCursor(cursor, r));
      if SCAN_BUDGET <= |scanned| then Some(PositionOf(scanned[SCAN_BUDGET - 1])) else None
  }

  /** What a page may show. */
  function Readable(source: Source, cursor: Cursor, edge: Cursor): set<Row> {
    set r | r in source.selected && AfterCursor(cursor, r) && WithinEdge(edge, r)
  }

  /** How a page ends: more rows after the last, an edge to look beyond, or nothing left. */
  datatype End = Next(after: Position) | KeepLooking(edge: Position) | Complete

  datatype Page = Page(rows: seq<Row>, end: End)

  /** One row more than the page holds is read, to know whether there is a next page. */
  function PageFrom(found: seq<Row>, limit: nat, edge: Cursor): Page
    requires limit >= 1
  {
    var docs := if |found| <= limit + 1 then found else found[..limit + 1];
    if |docs| > limit then Page(docs[..limit], Next(PositionOf(docs[limit - 1])))
    else Page(docs, if edge.Some? then KeepLooking(edge.value) else Complete)
  }

  ghost function ReadPage(source: Source, limit: nat, cursor: Cursor): Page
    requires source.Valid() && limit >= 1
  {
    var edge := EdgeOf(source, cursor);
    PageFrom(SortDesc(Readable(source, cursor, edge)), limit, edge)
  }

  function NextCursor(end: End): Cursor {
    match end
    case Next(p) => Some(p)
    case KeepLooking(p) => Some(p)
    case Complete => None
  }

  /** `p` is the position of a row of `c`. */
  predicate IsPositionIn(c: set<Row>, p: Position) {
    exists r :: r in c && PositionOf(r) == p
  }

  /** The edge lies beyond the cursor: looking on always gets further. */
  lemma EdgeIsFurther(source: Source, cursor: Cursor)
    requires source.Valid() && EdgeOf(source, cursor).Some?
    ensures
      var edge := EdgeOf(source, cursor).value;
      && (cursor.Some? ==> Before(cursor.value, edge))
      && source.scanned.Some? && IsPositionIn(source.scanned.value, edge)
  {
    var c := set r | r in source.scanned.value && OlderThanCursor(cursor, r);
    SortDescLists(c);
    assert SortDesc(c)[SCAN_BUDGET - 1] in c;
  }

  /** What a page does with a sorted list: it shows a beginning of it, and ends there or at the edge. */
  lemma PageOfSorted(found: seq<Row>, c: set<Row>, limit: nat, edge: Cursor)
    requires Lists(found, c) && limit >= 1
    ensures
      var page := PageFrom(found, limit, edge);
      && Descending(page.rows)
      && page.rows == found[..|page.rows|]
      && (forall r :: r in page.rows ==> r in c)
      && (page.end.Next? ==>
            && IsPositionIn(c, page.end.after)
            && (forall r :: r in page.rows ==> !Before(page.end.after, PositionOf(r)))
            && (forall r :: r in c && r !in page.rows ==> Before(page.end.after, PositionOf(r))))
      && (!page.end.Next? ==> page.rows == found)
  {
    var page := PageFrom(found, limit, edge);
    if page.end.Next? {
      assert found[limit - 1] in c && PositionOf(found[limit - 1]) == page.end.after;
      forall k | 0 <= k < limit
        ensures found[k] in page.rows
      {
        assert page.rows[k] == found[k];
      }
      forall r | r in c && r !in page.rows
        ensures Before(page.end.after, PositionOf(r))
      {
        var i :| 0 <= i < |found| && found[i] == r;
      }
    }
  }

  /** The rows of a page: selected, after the cursor, in order. */
  lemma PageIsInOrder(source: Source, limit: nat, cursor: Cursor)
    requires source.Valid() && limit >= 1
    ensures
      var page := ReadPage(source, limit, cursor);
      && Descending(page.rows)
      && (forall r :: r in page.rows ==> r in source.selected && AfterCursor(cursor, r))
  {
    var edge := EdgeOf(source, cursor);
    var c := Readable(source, cursor, edge);
    SortDescLists(c);
    PageOfSorted(SortDesc(c), c, limit, edge);
  }

  /** The next cursor: beyond the old one, and with no row of this page beyond it. */
  lemma PageMovesOn(source: Source, limit: nat, cursor: Cursor)
    requires source.Valid() && limit >= 1 && !ReadPage(source, limit, cursor).end.Complete?
    ensures
      var page := ReadPage(source, limit, cursor);
      var next := NextCursor(page.end).value;
      && (cursor.Some? ==> Before(cursor.value, next))
      && (forall r :: r in page.rows ==> !Before(next, PositionOf(r)))
      && (IsPositionIn(source.selected, next) || (source.scanned.Some? && IsPositionIn(source.scanned.value, next)))
  {
    var edge := EdgeOf(source, cursor);
    var c := Readable(source, cursor, edge);
    SortDescLists(c);
    PageOfSorted(SortDesc(c), c, limit, edge);
    if edge.Some? {
      EdgeIsFurther(source, cursor);
    }
  }

  /** What a page leaves out lies beyond its end: every row selected after the cursor is on it or still to come. */
  lemma PageLeavesOnlyLater(source: Source, limit: nat, cursor: Cursor, row: Row)
    requires source.Valid() && limit >= 1 && row in source.selected && AfterCursor(cursor, row)
    ensures
      var page := ReadPage(source, limit, cursor);
      row in page.rows || (!page.end.Complete? && AfterCursor(NextCursor(page.end), row))
  {
    var edge := EdgeOf(source, cursor);
    var c := Readable(source, cursor, edge);
    var page := ReadPage(source, limit, cursor);
    SortDescLists(c);
    PageOfSorted(SortDesc(c), c, limit, edge);
    if row !in c && page.end.Next? {
      var last :| last in c && PositionOf(last) == page.end.after;
    }
  }

  /*** The walk ***/

  datatype Walk = Walk(rows: seq<Row>, complete: bool)

  predicate AllValid(sources: seq<Source>) {
    forall i :: 0 <= i < |sources| ==> sources[i].Valid()
  }

  /** Page after page, each from the cursor the one before gave, over whatever the collection is by then. */
  ghost function WalkFrom(sources: seq<Source>, limit: nat, cursor: Cursor): Walk
    requires AllValid(sources) && limit >= 1
    decreases |sources|
  {
    if sources == [] then Walk([], false)
    else
      var page := ReadPage(sources[0], limit, cursor);
      if page.end.Complete? then Walk(page.rows, true)
      else
        var rest := WalkFrom(sources[1..], limit, NextCursor(page.end));
        Walk(page.rows + rest.rows, rest.complete)
  }

  predicate IsSelectedSomewhere(sources: seq<Source>, row: Row) {
    exists i :: 0 <= i < |sources| && row in sources[i].selected
  }

  lemma JoinInOrder(xs: seq<Row>, ys: seq<Row>, p: Position)
    requires Descending(xs) && Descending(ys)
    requires forall r :: r in xs ==> !Before(p, PositionOf(r))
    requires forall r :: r in ys ==> AfterCursor(Some(p), r)
    ensures Descending(xs + ys)
  {
    forall i, j | 0 <= i < j < |xs + ys|
      ensures Before(PositionOf((xs + ys)[i]), PositionOf((xs + ys)[j]))
    {
      if i < |xs| <= j {
        assert xs[i] in xs && ys[j - |xs|] in ys;
      }
    }
  }

  lemma LaterCursor(cursor: Cursor, next: Position, row: Row)
    requires (cursor.Some? ==> Before(cursor.value, next)) && AfterCursor(Some(next), row)
    ensures AfterCursor(cursor, row)
  {
  }

  /** The rows of a whole walk are in order, however the collection changed between its reads. */
  lemma {:induction false} WalkIsInOrder(sources: seq<Source>, limit: nat, cursor: Cursor)
    requires AllValid(sources) && limit >= 1
    ensures
      var rows := WalkFrom(sources, limit, cursor).rows;
      && Descending(rows)
      && (forall r :: r in rows ==> AfterCursor(cursor, r) && IsSelectedSomewhere(sources, r))
    decreases |sources|
  {
    if sources != [] {
      var page := ReadPage(sources[0], limit, cursor);
      PageIsInOrder(sources[0], limit, cursor);
      assert forall r :: r in sources[0].selected ==> IsSelectedSomewhere(sources, r);
      if !page.end.Complete? {
        var next := NextCursor(page.end);
        PageMovesOn(sources[0], limit, cursor);
        WalkIsInOrder(sources[1..], limit, next);
        var rest := WalkFrom(sources[1..], limit, next).rows;
        JoinInOrder(page.rows, rest, next.value);
        forall r | r in rest
          ensures AfterCursor(cursor, r) && IsSelectedSomewhere(sources, r)
        {
          LaterCursor(cursor, next.value, r);
          var i :| 0 <= i < |sources[1..]| && r in sources[1..][i].selected;
          assert r in sources[i + 1].selected;
        }
      }
    }
  }

  /** Each row's time never changes, whatever else about it does. */
  predicate TimesAreStable(sources: seq<Source>) {
    forall i, j :: 0 <= i < |sources| && 0 <= j < |sources| ==>
      forall r, r' :: r in sources[i].selected && r' in sources[j].selected && r.id == r'.id ==> r.time == r'.time
  }

  /** No row is delivered twice, even if rows come, go and change between the pages. */
  lemma NoRowTwice(sources: seq<Source>, limit: nat, i: nat, j: nat)
    requires AllValid(sources) && limit >= 1 && TimesAreStable(sources)
    requires i < j < |WalkFrom(sources, limit, None).rows|
    ensures WalkFrom(sources, limit, None).rows[i].id != WalkFrom(sources, limit, None).rows[j].id
  {
    WalkIsInOrder(sources, limit, None);
    var rows := WalkFrom(sources, limit, None).rows;
    assert rows[i] in rows && rows[j] in rows;
    assert IsSelectedSomewhere(sources, rows[i]) && IsSelectedSomewhere(sources, rows[j]);
    assert Before(PositionOf(rows[i]), PositionOf(rows[j]));
  }

  /** A walk that completes has delivered every row that was there to select throughout. */
  lemma {:induction false} EveryLastingRowIsDelivered(sources: seq<Source>, limit: nat, cursor: Cursor, p: Position)
    requires AllValid(sources) && limit >= 1
    requires forall i :: 0 <= i < |sources| ==> IsPositionIn(sources[i].selected, p)
    requires cursor.Some? ==> Before(cursor.value, p)
    requires WalkFrom(sources, limit, cursor).complete
    ensures exists r :: r in WalkFrom(sources, limit, cursor).rows && PositionOf(r) == p
    decreases |sources|
  {
    var page := ReadPage(sources[0], limit, cursor);
    var walk := WalkFrom(sources, limit, cursor);
    var row :| row in sources[0].selected && PositionOf(row) == p;
    PageLeavesOnlyLater(sources[0], limit, cursor, row);
    if row in page.rows {
      assert row in walk.rows;
    } else {
      var rest := WalkFrom(sources[1..], limit, NextCursor(page.end));
      EveryLastingRowIsDelivered(sources[1..], limit, NextCursor(page.end), p);
      var r :| r in rest.rows && PositionOf(r) == p;
      assert r in walk.rows;
    }
  }

  /*** A collection that stays as it is ***/

  /** The same source for every page. */
  function Unchanging(source: Source, n: nat): (sources: seq<Source>)
    ensures |sources| == n && forall i :: 0 <= i < n ==> sources[i] == source
  {
    seq(n, _ => source)
  }

  function RowsAfter(c: set<Row>, cursor: Cursor): set<Row> {
    set r | r in c && AfterCursor(cursor, r)
  }

  lemma SmallerByOne(a: set<Row>, b: set<Row>, r: Row)
    requires r in b && a <= b - {r}
    ensures |a| < |b|
  {
    assert b == a + (b - a) && a !! (b - a) && r in b - a;
  }

  /** A cursor at a row of `c` after the one before leaves fewer rows of `c` to come. */
  lemma CursorLeavesFewer(c: set<Row>, cursor: Cursor, next: Position)
    requires IsPositionIn(c, next) && (cursor.Some? ==> Before(cursor.value, next))
    ensures |RowsAfter(c, Some(next))| < |RowsAfter(c, cursor)|
  {
    var r :| r in c && PositionOf(r) == next;
    SmallerByOne(RowsAfter(c, Some(next)), RowsAfter(c, cursor), r);
  }

  predicate DrawnFrom(source: Source, c: set<Row>) {
    source.selected <= c && (source.scanned.Some? ==> source.scanned.value <= c)
  }

  /** Every cursor is the position of a row after the one before, so the walk ends. */
  lemma {:induction false} WalkEnds(source: Source, limit: nat, c: set<Row>, n: nat, cursor: Cursor)
    requires source.Valid() && limit >= 1 && DrawnFrom(source, c) && |RowsAfter(c, cursor)| < n
    ensures WalkFrom(Unchanging(source, n), limit, cursor).complete
    decreases n
  {
    var sources := Unchanging(source, n);
    var page := ReadPage(source, limit, cursor);
    if !page.end.Complete? {
      var next := NextCursor(page.end);
      PageMovesOn(source, limit, cursor);
      CursorLeavesFewer(c, cursor, next.value);
      assert sources[1..] == Unchanging(source, n - 1);
      WalkEnds(source, limit, c, n - 1, next);
    }
  }

  /**
   Over a collection that stays as it is, following the cursors ends within one page
   more than there are rows, and the pages joined together are the whole list: every
   row selected, once, newest first, however they were cut.
   */
  lemma PagesMakeTheSortedList(source: Source, limit: nat, c: set<Row>, n: nat)
    requires source.Valid() && limit >= 1 && DrawnFrom(source, c) && |c| < n
    ensures WalkFrom(Unchanging(source, n), limit, None) == Walk(SortDesc(source.selected), true)
  {
    var sources := Unchanging(source, n);
    assert RowsAfter(c, None) == c;
    WalkEnds(source, limit, c, n, None);
    WalkIsInOrder(sources, limit, None);
    SortDescLists(source.selected);
    var rows := WalkFrom(sources, limit, None).rows;
    var sorted := SortDesc(source.selected);
    forall r
      ensures r in rows <==> r in sorted
    {
      if r in sorted {
        assert IsPositionIn(source.selected, PositionOf(r));
        EveryLastingRowIsDelivered(sources, limit, None, PositionOf(r));
        var q :| q in rows && PositionOf(q) == PositionOf(r);
        assert IsSelectedSomewhere(sources, q);
      }
    }
    DescendingIsUnique(rows, sorted);
  }
}
