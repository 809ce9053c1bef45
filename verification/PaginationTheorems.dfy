/** Walking the pages agrees with the sorted table, even while the table changes. */
module PaginationTheorems {
  import opened Prelude
  import opened JsText
  import opened Json
  import opened Utf8
  import opened Canonical
  import opened Cursor
  import opened Keyset
  import opened Pagination

  /** Following `next_cursor` from the first page, with tables and limits that change between reads:
      rows come in strictly descending order, so none twice, and when the walk ends every row that was
      in the table at each read has been returned. */
  lemma WalkReturnsLastingRowsOnce(requests: seq<Request>)
    requires AllProper(requests)
    ensures var pages := WalkHistory(requests, None);
            && Descending(RowBelow, Collected(pages))
            && (forall i, j | 0 <= i < j < |Collected(pages)| :: Collected(pages)[i] != Collected(pages)[j])
            && |pages| <= |requests|
            && (Finished(pages) ==>
                  forall x: Row | (forall i | 0 <= i < |pages| :: x in requests[i].table) :: x in Collected(pages))
  {
    RowsAreOrdered();
    CursorsStandForRows();
    LastingRowsOnce(RowBelow, ProperRow, DecodeCursor, CursorTo, Views(requests));
    var pages := WalkHistory(requests, None);
    forall x: Row | Finished(pages) && forall i | 0 <= i < |pages| :: x in requests[i].table
      ensures x in Collected(pages)
    {
      assert forall i | 0 <= i < |pages| :: x in Views(requests)[i].table;
    }
  }

  /** The bytes of `x` are those of `y` up to `k`, and there `y` ends or has the smaller byte. */
  predicate GreaterAt(x: seq<Byte>, y: seq<Byte>, k: int) {
    && 0 <= k < |x| && k <= |y| && (forall i | 0 <= i < k :: x[i] == y[i])
    && (k < |y| ==> x[k] > y[k])
  }

  ghost predicate Greater(x: JsString, y: JsString) { exists k :: GreaterAt(Encode(x), Encode(y), k) }

  lemma GreaterIsAbove(x: JsString, y: JsString)
    ensures TextBelow(y, x) <==> Greater(x, y)
  {
    hide Encode, Below;
    BelowPrecedes(Key(y), Key(x));
    if k :| GreaterAt(Encode(x), Encode(y), k) { assert PartsAt(Key(y), Key(x), k); }
    if k :| PartsAt(Key(y), Key(x), k) { assert GreaterAt(Encode(x), Encode(y), k); }
  }

  /** Whatever is stored and whatever the limits, a walk returns rows newest first: of any two, the earlier one has
      the greater time text by its UTF-8 bytes, or the same time and the greater id. */
  lemma NewestFirst(requests: seq<Request>, i: nat, j: nat)
    requires AllProper(requests) && i < j < |Collected(WalkHistory(requests, None))|
    ensures var rows := Collected(WalkHistory(requests, None));
            Greater(rows[i].at, rows[j].at) || (rows[i].at == rows[j].at && Greater(rows[i].id, rows[j].id))
  {
    hide WalkHistory, TextBelow, Greater;
    WalkReturnsLastingRowsOnce(requests);
    var rows := Collected(WalkHistory(requests, None));
    assert RowBelow(rows[j], rows[i]);
    GreaterIsAbove(rows[i].at, rows[j].at);
    GreaterIsAbove(rows[i].id, rows[j].id);
  }

  /** The first page of a table has ten rows at most, fewer if a limit from 1 to 9 says so or the table has fewer; a
      limit below 1 counts as 1, one above 10 as 10, and none as 10. */
  lemma FirstPageSize(table: seq<Row>, limit: Option<int>)
    requires Stored(ProperRow, table)
    ensures var size := if limit.None? || limit.value > 10 then 10 else if limit.value < 1 then 1 else limit.value;
            var page := ReadHistory(Request(table, limit), None);
            && |page.rows| == (if |table| < size then |table| else size)
            && page.size == size && (page.hasMore <==> |table| > size)
  {
    hide RowBelow, ProperRow, Stored;
    AllAfter(RowBelow, Ordered(RowBelow, table), None);
    OrderedLength(RowBelow, table);
  }

  /** When the tables draw on finitely many rows, a walk with at least that many requests to spend comes to its
      end within them, and has then returned every row that was in the table at each read. */
  lemma WalkFinishesWithLastingRows(requests: seq<Request>, all: set<Row>)
    requires AllProper(requests) && requests != [] && |requests| >= |all|
    requires forall i, x | 0 <= i < |requests| && x in requests[i].table :: x in all
    ensures var pages := WalkHistory(requests, None);
            && Finished(pages) && (|pages| <= 1 || |pages| <= |all|)
            && forall x: Row | (forall i | 0 <= i < |pages| :: x in requests[i].table) :: x in Collected(pages)
  {
    RowsAreOrdered();
    CursorsStandForRows();
    assert forall i, x | 0 <= i < |requests| && x in Views(requests)[i].table :: x in requests[i].table;
    WalkFinishes(RowBelow, ProperRow, DecodeCursor, CursorTo, Views(requests), all);
    WalkReturnsLastingRowsOnce(requests);
  }

  /** On a table that does not change, with one limit, the pages put together are the sorted table,
      and the walk stops after exactly max(1, ceil(rows / limit)) pages. */
  lemma {:induction false} FixedTableWalk(table: seq<Row>, limit: Option<int>, requests: seq<Request>)
    requires Stored(ProperRow, table)
    requires forall i | 0 <= i < |requests| :: requests[i] == Request(table, limit)
    requires |requests| >= PageCount(|table|, NormalizeLimit(limit))
    ensures var pages := WalkHistory(requests, None);
            && Finished(pages) && Collected(pages) == Ordered(RowBelow, table)
            && |pages| == PageCount(|table|, NormalizeLimit(limit))
  {
    RowsAreOrdered();
    CursorsStandForRows();
    StillTable(RowBelow, ProperRow, DecodeCursor, CursorTo, table, NormalizeLimit(limit), Views(requests));
  }

  // ----- where the hypotheses are needed

  /** A next cursor the decoder refuses is taken for no cursor: the walk starts over at the first page.
      The decoder refuses exactly blank or over-long parts and over-long wholes. */
  lemma RefusedCursorRestarts(table: seq<Row>, c: HistoryCursor, limit: Option<int>)
    ensures EncodeCursor(c).Some?
    ensures DecodeCursor(EncodeCursor(c)) == None
       <==> (Trim(c.at) == [] || |Trim(c.at)| > 80 || Trim(c.id) == [] || |Trim(c.id)| > 160
             || |EncodeCursor(c).value| > 1000)
    ensures DecodeCursor(EncodeCursor(c)) == None ==>
              ReadHistory(Request(table, limit), EncodeCursor(c)) == ReadHistory(Request(table, limit), None)
  {
    DecodedCursor(c);
  }

  lemma {:induction false} EncodedLength(s: JsString)
    requires PercentEncode(s).Some? && forall i | 0 <= i < |s| :: s[i] < 128
    ensures |PercentEncode(s).value| <= 3 * |s|
    decreases |s|
  {
    if s != [] {
      assert |EncodePiece(s)| <= 3 by { if !Unreserved(s[0]) { EscapedBytesRead(ScalarBytes(s[0] as int), []); } }
      EncodedLength(s[1..]);
    }
  }

  lemma OneUnit(d: CodeUnit)
    requires 48 <= d <= 57 || 97 <= d <= 122
    ensures Quote([d]) == [34, d, 34] && WellFormedText([d]) && Key([d]) == [d] && Trimmed([d])
  {
    assert [d][1..] == [];
    assert QuoteBody([d]) == Piece([d]) + QuoteBody([]);
    assert Encode([d]) == ScalarBytes(d as int) + Encode([]);
  }

  lemma SmallJson(d: CodeUnit, e: CodeUnit)
    requires 48 <= d <= 57 && 97 <= e <= 122
    ensures var json := CursorJson(HistoryCursor([d], [e]));
            |json| == 19 && forall i | 0 <= i < |json| :: json[i] < 128
  {
    OneUnit(d);
    OneUnit(e);
    var json := CursorJson(HistoryCursor([d], [e]));
    assert json == [123, 34, 97, 116, 34, 58, 34, d, 34, 44, 34, 105, 100, 34, 58, 34, e, 34, 125];
  }

  lemma SmallRow(d: CodeUnit, e: CodeUnit)
    requires 48 <= d <= 57 && 97 <= e <= 122
    ensures ProperRow(HistoryCursor([d], [e])) && Key([d]) == [d]
  {
    var c := HistoryCursor([d], [e]);
    EncodeCursorNeverThrows(c);
    SmallJson(d, e);
    EncodedLength(CursorJson(c));
    OneUnit(d);
    OneUnit(e);
  }

  /** `keys[i]` is what one run is at read `i`: it is in that table, and its sort key never falls. */
  ghost predicate NeverFalls(requests: seq<Request>, keys: seq<Row>) {
    && |keys| == |requests|
    && (forall i | 0 <= i < |requests| :: keys[i] in requests[i].table)
    && forall i | 0 <= i < |requests| - 1 :: keys[i] == keys[i + 1] || RowBelow(keys[i], keys[i + 1])
  }

  /** In a walk that comes to its end such a run is missed exactly when, after some page but the last, it has
      risen from below that page's last row to that row or above: it then jumped over the cursor. */
  lemma RisingRowMissedExactly(requests: seq<Request>, keys: seq<Row>)
    requires AllProper(requests) && NeverFalls(requests, keys) && Finished(WalkHistory(requests, None))
    ensures var pages := WalkHistory(requests, None);
            |pages| <= |requests|
            && ((forall i | 0 <= i < |pages| :: keys[i] !in pages[i].rows)
                <==> exists i | 0 <= i < |pages| - 1 :: Overtakes(RowBelow, pages[i].rows, keys[i], keys[i + 1]))
  {
    hide Walk, Finished, Shown, Overtaken, Overtakes, Orders, Codec, Stored, Collected, RowsOf, Descending;
    RowsAreOrdered();
    CursorsStandForRows();
    assert forall i | 0 <= i < |requests| :: keys[i] in Views(requests)[i].table;
    WalkMissesExactly(RowBelow, ProperRow, DecodeCursor, CursorTo, Views(requests), keys);
    WalkReturnsLastingRowsOnce(requests);
    MissedReadsOff(requests, keys);
  }

  /** And in no walk, finished or not, is such a run shown on two pages, whatever its key is on each. */
  lemma RisingRowShownOnce(requests: seq<Request>, keys: seq<Row>)
    requires AllProper(requests) && NeverFalls(requests, keys)
    ensures var pages := WalkHistory(requests, None);
            |pages| <= |requests|
            && forall i, j | 0 <= i < j < |pages| :: !(keys[i] in pages[i].rows && keys[j] in pages[j].rows)
  {
    hide Walk, Finished, Shown, ShownTwice, Overtaken, Orders, Codec, Stored, Collected, RowsOf, Descending;
    RowsAreOrdered();
    CursorsStandForRows();
    assert forall i | 0 <= i < |requests| :: keys[i] in Views(requests)[i].table;
    WalkShowsOnce(RowBelow, ProperRow, DecodeCursor, CursorTo, Views(requests), keys);
    WalkReturnsLastingRowsOnce(requests);
    MissedReadsOff(requests, keys);
  }

  lemma MissedReadsOff(requests: seq<Request>, keys: seq<Row>)
    requires |WalkHistory(requests, None)| <= |requests| == |keys|
    ensures var pages := WalkHistory(requests, None);
            && (Shown(RowsOf(pages), keys) <==> exists i | 0 <= i < |pages| :: keys[i] in pages[i].rows)
            && (Overtaken(RowBelow, RowsOf(pages), keys)
                <==> exists i | 0 <= i < |pages| - 1 :: Overtakes(RowBelow, pages[i].rows, keys[i], keys[i + 1]))
            && (ShownTwice(RowsOf(pages), keys)
                <==> exists i, j | 0 <= i < j < |pages| :: keys[i] in pages[i].rows && keys[j] in pages[j].rows)
  {
    hide WalkHistory, Overtakes;
    var pages := WalkHistory(requests, None);
    forall i | 0 <= i < |pages| && keys[i] in pages[i].rows ensures Shown(RowsOf(pages), keys) {
      assert keys[i] in RowsOf(pages)[i];
    }
    forall i | 0 <= i < |pages| - 1 && Overtakes(RowBelow, pages[i].rows, keys[i], keys[i + 1])
      ensures Overtaken(RowBelow, RowsOf(pages), keys)
    {
      assert Overtakes(RowBelow, RowsOf(pages)[i], keys[i], keys[i + 1]);
    }
    forall i, j | 0 <= i < j < |pages| && keys[i] in pages[i].rows && keys[j] in pages[j].rows
      ensures ShownTwice(RowsOf(pages), keys)
    {
      assert keys[i] in RowsOf(pages)[i] && keys[j] in RowsOf(pages)[j];
    }
  }

  /** One row per page, over a table where `low` turns into `high` between the reads. */
  function TwoReads(a: Row, low: Row, high: Row): seq<Request> {
    [Request([a, low], Some(1)), Request([a, high], Some(1))]
  }

  lemma PairViews(a: Row, low: Row, high: Row)
    requires ProperRow(a) && ProperRow(low) && ProperRow(high) && low != a && high != a
    ensures Views(TwoReads(a, low, high)) == [View([a, low], 1), View([a, high], 1)]
    ensures AllProper(TwoReads(a, low, high))
  {
    hide ProperRow;
  }

  lemma RowsMissed(a: Row, low: Row, high: Row)
    requires ProperRow(a) && ProperRow(low) && ProperRow(high) && RowBelow(low, a) && RowBelow(a, high)
    requires low != a && high != a
    ensures var requests := TwoReads(a, low, high);
            AllProper(requests) && Finished(WalkHistory(requests, None))
              && Collected(WalkHistory(requests, None)) == [a]
  {
    PairViews(a, low, high);
    assert Finished(WalkHistory(TwoReads(a, low, high), None))
      && Collected(WalkHistory(TwoReads(a, low, high), None)) == [a] by {
      RowsAreOrdered();
      CursorsStandForRows();
      RisenRowMissed(RowBelow, ProperRow, DecodeCursor, CursorTo, a, low, high);
    }
  }

  /** In the innovation rail a run's sort key rises when it completes. A run that completes between two
      reads jumps over the cursor: it is in the table at every read, and is never returned. */
  lemma RisingKeyIsMissed()
    ensures exists a: Row, low: Row, high: Row ::
              && low.id == high.id != a.id
              && var requests := TwoReads(a, low, high);
              && AllProper(requests) && Finished(WalkHistory(requests, None))
              && Collected(WalkHistory(requests, None)) == [a]
  {
    var a, low, high := HistoryCursor([51], [97]), HistoryCursor([49], [120]), HistoryCursor([52], [120]);
    SmallRow(51, 97);
    SmallRow(49, 120);
    SmallRow(52, 120);
    assert TextBelow(low.at, a.at) && TextBelow(a.at, high.at);
    assert low.id[0] != a.id[0] && high.id[0] != a.id[0];
    RowsMissed(a, low, high);
  }
}
