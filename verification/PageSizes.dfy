/**
 How long the pages of a list are and where they end: as long as asked for until the
 list, or what the scan budget reaches of it, runs out.
 */
module PageSizes {
  import opened Wrappers
  import opened Collections
  import opened BucketRead
  import opened KeysetPaging
  import opened BucketPlan
  import opened BucketPaging

  /*** The edge ***/

  /** Those of some rows that are not beyond a position. */
  function DownTo(c: set<Row>, p: Position): set<Row> {
    set r | r in c && !Before(p, PositionOf(r))
  }

  function RowsOf(rows: seq<Row>): set<Row> {
    set i | 0 <= i < |rows| :: rows[i]
  }

  lemma {:induction false} DescendingAreDistinct(rows: seq<Row>)
    requires Descending(rows)
    ensures |RowsOf(rows)| == |rows|
    decreases |rows|
  {
    if rows != [] {
      var init, last := rows[..|rows| - 1], rows[|rows| - 1];
      DescendingAreDistinct(init);
      assert RowsOf(rows) == RowsOf(init) + {last};
      assert last !in RowsOf(init);
    }
  }

  /** In a descending list the rows down to the one at `k` are the first `k + 1`. */
  lemma DownToIsAPrefix(sorted: seq<Row>, c: set<Row>, k: nat)
    requires Lists(sorted, c) && k < |sorted|
    ensures |DownTo(c, PositionOf(sorted[k]))| == k + 1
  {
    var first := sorted[..k + 1];
    forall r
      ensures r in DownTo(c, PositionOf(sorted[k])) <==> r in RowsOf(first)
    {
      if r in c {
        var i :| 0 <= i < |sorted| && sorted[i] == r;
        assert i <= k ==> first[i] == r;
        assert i > k ==> Before(PositionOf(sorted[k]), PositionOf(r));
      }
      if r in RowsOf(first) {
        var i :| 0 <= i < |first| && first[i] == r;
        assert sorted[i] == r && sorted[i] in c;
      }
    }
    assert DownTo(c, PositionOf(sorted[k])) == RowsOf(first);
    DescendingAreDistinct(first);
  }

  /** What the scan for an edge counts: rows strictly older than the cursor. */
  function Scanned(source: Source, cursor: Cursor): set<Row> {
    if source.scanned.None? then {}
    else set r | r in source.scanned.value && (cursor.Some? ==> r.time < cursor.value.time)
  }

  /**
   A bounded read has an edge exactly if it has as many rows to scan as its budget, and reaches
   that many down to it.
   */
  lemma EdgeIsAtTheBudget(source: Source, cursor: Cursor)
    requires source.Valid()
    ensures EdgeOf(source, cursor).Some? <==> |Scanned(source, cursor)| >= 20_000
    ensures EdgeOf(source, cursor).Some? ==> |DownTo(Scanned(source, cursor), EdgeOf(source, cursor).value)| == 20_000
  {
    if source.scanned.Some? {
      var c := set r | r in source.scanned.value && OlderThanCursor(cursor, r);
      assert c == Scanned(source, cursor);
      SortDescLists(c);
      if EdgeOf(source, cursor).Some? {
        DownToIsAPrefix(SortDesc(c), c, SCAN_BUDGET - 1);
      }
    }
  }

  /**
   The scan for the edge of a bounded plan counts the rows its index conditions take, none of them
   by a null it would fill.
   */
  lemma ScannedExactly(read: Read, row: Row)
    requires read.Ready()
    ensures IsScanned(read, row) <==>
      && (forall f :: f in read.query.asked && f in FactsOf(read.b, read.plan.line) ==>
        ValueOf(row, f) == read.query.where[f])
      && (forall f :: f in read.plan.filled ==>
            ValueOf(row, f).Some? && HoldsListed(read.b, f, row) && ShowsNothingHidden(read.b, read.query, f, row))
      && (read.query.ref.Some? ==> read.query.ref.value in row.refs)
      && (read.query.since.Some? ==> read.query.since.value <= row.time)
      && (read.query.until.Some? ==> row.time <= read.query.until.value)
  {
    var bound, filled := BoundPart(read.b, read.query, read.plan), FilledPart(read.b, read.query, read.plan, false);
    forall f | f in read.plan.filled
      ensures Holds(filled[f], ValueOf(row, f)) <==>
        ValueOf(row, f).Some? && HoldsListed(read.b, f, row) && ShowsNothingHidden(read.b, read.query, f, row)
    {
      assert IsClosed(read.b, f);
      FilledMeans(read.b, read.query, f, row);
    }
    assert forall f :: f in bound <==> f in read.query.asked && f in FactsOf(read.b, read.plan.line);
    assert forall f :: f in filled <==> f in read.plan.filled;
  }

  /*** One page ***/

  /** What a page has to choose from. */
  ghost function Left(source: Source, cursor: Cursor): set<Row>
    requires source.Valid()
  {
    Readable(source, cursor, EdgeOf(source, cursor))
  }

  /**
   A page holds the newest of what it has to choose from, as many as asked for or all there
   are; it names its last row as the next cursor exactly if there are more, otherwise the
   edge if there is one, and says that it is complete if there is neither.
   */
  lemma PageIsAsLongAsAsked(source: Source, limit: nat, cursor: Cursor)
    requires source.Valid() && limit >= 1
    ensures
      var page, n, edge := ReadPage(source, limit, cursor), |Left(source, cursor)|, EdgeOf(source, cursor);
      && |page.rows| == (if n <= limit then n else limit)
      && page.rows == SortDesc(Left(source, cursor))[..|page.rows|]
      && (page.end.Next? <==> n > limit)
      && (page.end.Next? ==> page.end.after == PositionOf(page.rows[limit - 1]))
      && (page.end.KeepLooking? <==> n <= limit && edge.Some?)
      && (page.end.KeepLooking? ==> page.end.edge == edge.value)
      && (page.end.Complete? <==> n <= limit && edge.None?)
  {
    SortDescLists(Left(source, cursor));
  }

  /*** All pages ***/

  /** The pages of a walk, one by one. */
  ghost function PagesFrom(sources: seq<Source>, limit: nat, cursor: Cursor): seq<Page>
    requires AllValid(sources) && limit >= 1
    decreases |sources|
  {
    if sources == [] then []
    else
      var page := ReadPage(sources[0], limit, cursor);
      [page] + (if page.end.Complete? then [] else PagesFrom(sources[1..], limit, NextCursor(page.end)))
  }

  function Joined(pages: seq<Page>): seq<Row> {
    if pages == [] then [] else pages[0].rows + Joined(pages[1..])
  }

  /** The walk is its pages joined, none longer than asked for, and each that has a next page full. */
  lemma {:induction false} WalkIsItsPages(sources: seq<Source>, limit: nat, cursor: Cursor)
    requires AllValid(sources) && limit >= 1
    ensures
      var pages, walk := PagesFrom(sources, limit, cursor), WalkFrom(sources, limit, cursor);
      && walk.rows == Joined(pages)
      && (walk.complete <==> pages != [] && pages[|pages| - 1].end.Complete?)
      && (forall i :: 0 <= i < |pages| ==> |pages[i].rows| <= limit)
      && (forall i :: 0 <= i < |pages| && pages[i].end.Next? ==> |pages[i].rows| == limit)
      && (forall i :: 0 <= i < |pages| - 1 ==> !pages[i].end.Complete?)
    decreases |sources|
  {
    if sources != [] {
      PageIsAsLongAsAsked(sources[0], limit, cursor);
      var page := ReadPage(sources[0], limit, cursor);
      if !page.end.Complete? {
        WalkIsItsPages(sources[1..], limit, NextCursor(page.end));
        var rest := PagesFrom(sources[1..], limit, NextCursor(page.end));
        assert PagesFrom(sources, limit, cursor)[1..] == rest;
        assert rest == [] ==> WalkFrom(sources[1..], limit, NextCursor(page.end)) == Walk([], false);
      } else {
        assert PagesFrom(sources, limit, cursor)[1..] == [];
      }
    }
  }

  /** A list cut into pieces of one length, the last perhaps shorter. */
  function Chunks(rows: seq<Row>, limit: nat): seq<seq<Row>>
    requires limit >= 1
    decreases |rows|
  {
    if |rows| <= limit then [rows] else [rows[..limit]] + Chunks(rows[limit..], limit)
  }

  function RowsOfPages(pages: seq<Page>): (rows: seq<seq<Row>>)
    ensures |rows| == |pages| && forall i :: 0 <= i < |pages| ==> rows[i] == pages[i].rows
  {
    seq(|pages|, i requires 0 <= i < |pages| => pages[i].rows)
  }

  /** What comes after a full page of a sorted list is the rest of it. */
  lemma RestOfSorted(c: set<Row>, cursor: Cursor, sorted: seq<Row>, limit: nat)
    requires UniqueIds(c) && Lists(sorted, RowsAfter(c, cursor)) && 1 <= limit < |sorted|
    ensures SortDesc(RowsAfter(c, Some(PositionOf(sorted[limit - 1])))) == sorted[limit..]
  {
    var next := PositionOf(sorted[limit - 1]);
    var later, rest := RowsAfter(c, Some(next)), sorted[limit..];
    SortDescLists(later);
    forall r
      ensures r in SortDesc(later) <==> r in rest
    {
      if r in later {
        LaterRowIsInRest(c, cursor, sorted, limit, r);
      }
      if r in rest {
        var i :| 0 <= i < |rest| && rest[i] == r;
        assert sorted[i + limit] == r && r in sorted && Before(next, PositionOf(r));
        assert r in RowsAfter(c, cursor) && r in later;
      }
    }
    assert forall i, j :: 0 <= i < j < |rest| ==> Before(PositionOf(rest[i]), PositionOf(rest[j])) by {
      forall i, j | 0 <= i < j < |rest|
        ensures Before(PositionOf(rest[i]), PositionOf(rest[j]))
      {
        assert rest[i] == sorted[i + limit] && rest[j] == sorted[j + limit];
      }
    }
    DescendingIsUnique(SortDesc(later), rest);
  }

  lemma LaterRowIsInRest(c: set<Row>, cursor: Cursor, sorted: seq<Row>, limit: nat, r: Row)
    requires Lists(sorted, RowsAfter(c, cursor)) && 1 <= limit < |sorted|
    requires r in RowsAfter(c, Some(PositionOf(sorted[limit - 1])))
    ensures r in sorted[limit..]
  {
    var last := sorted[limit - 1];
    assert last in RowsAfter(c, cursor);
    assert r in RowsAfter(c, cursor);
    var i :| 0 <= i < |sorted| && sorted[i] == r;
    assert i < limit - 1 ==> Before(PositionOf(r), PositionOf(last));
    assert i >= limit;
    assert sorted[limit..][i - limit] == r;
  }

  /** A page without an edge: all of a short list, or the first of a longer one with the rest after its cursor. */
  lemma FirstPage(source: Source, limit: nat, cursor: Cursor)
    requires source.Valid() && source.scanned.None? && limit >= 1
    ensures
      var c, page := RowsAfter(source.selected, cursor), ReadPage(source, limit, cursor);
      var sorted := SortDesc(c);
      && |sorted| == |c|
      && (|c| <= limit ==> page.end.Complete? && page.rows == sorted)
      && (|c| > limit ==>
            && page.end.Next? && page.rows == sorted[..limit]
            && SortDesc(RowsAfter(source.selected, NextCursor(page.end))) == sorted[limit..]
            && |RowsAfter(source.selected, NextCursor(page.end))| == |c| - limit)
  {
    var c := RowsAfter(source.selected, cursor);
    assert Left(source, cursor) == c;
    PageIsAsLongAsAsked(source, limit, cursor);
    SortDescLists(c);
    var sorted, page := SortDesc(c), ReadPage(source, limit, cursor);
    if |c| > limit {
      assert page.rows[limit - 1] == sorted[limit - 1];
      RestOfSorted(source.selected, cursor, sorted, limit);
      SortDescLists(RowsAfter(source.selected, NextCursor(page.end)));
    } else {
      assert sorted[..|sorted|] == sorted;
    }
  }

  lemma RowsOfMorePages(page: Page, rest: seq<Page>)
    ensures RowsOfPages([page] + rest) == [page.rows] + RowsOfPages(rest)
  {
  }

  /** Without an edge, over a collection that stays as it is, the pages are the list cut at every `limit` rows. */
  lemma {:induction false} PagesAreChunks(source: Source, limit: nat, n: nat, cursor: Cursor)
    requires source.Valid() && source.scanned.None? && limit >= 1 && |RowsAfter(source.selected, cursor)| < n
    ensures
      RowsOfPages(PagesFrom(Unchanging(source, n), limit, cursor)) ==
        Chunks(SortDesc(RowsAfter(source.selected, cursor)), limit)
    decreases n
  {
    var sources, page := Unchanging(source, n), ReadPage(source, limit, cursor);
    FirstPage(source, limit, cursor);
    if page.end.Complete? {
      assert PagesFrom(sources, limit, cursor) == [page] + [];
      RowsOfMorePages(page, []);
    } else {
      assert sources[1..] == Unchanging(source, n - 1);
      PagesAreChunks(source, limit, n - 1, NextCursor(page.end));
      RowsOfMorePages(page, PagesFrom(sources[1..], limit, NextCursor(page.end)));
    }
  }

  /** An exact plan pages its list out in pages of just the length asked for, the last perhaps shorter. */
  lemma ExactPagesAreChunks(read: Read, c: set<Row>, n: nat)
    requires read.Ready() && read.plan.kind == Exact && UniqueIds(c) && |c| < n
    ensures
      RowsOfPages(PagesFrom(SourcesOf(read, Still(c, n)), read.limit, None)) ==
        Chunks(SortDesc(Selected(read, c)), read.limit)
  {
    var source := SourceOf(read, Snapshot(c, c));
    assert SourcesOf(read, Still(c, n)) == Unchanging(source, n);
    assert RowsAfter(source.selected, None) == source.selected;
    SubsetIsNoLarger(source.selected, c);
    PagesAreChunks(source, read.limit, n, None);
  }
}
