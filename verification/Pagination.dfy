/** The cycle history pages, newest first: rows sorted by time and id, walked by an encoded cursor. */
module Pagination {
  import opened Prelude
  import opened JsText
  import opened Utf8
  import opened Base64
  import opened Canonical
  import opened Cursor
  import opened Keyset

  const DEFAULT_LIMIT := 10
  const MAX_LIMIT := 10

  /** A row is its sort key: time text and id. */
  type Row = HistoryCursor

  /** `None` is a limit that is no finite number; other limits are already truncated. */
  function NormalizeLimit(value: Option<int>): (limit: nat)
    ensures 1 <= limit <= MAX_LIMIT
  {
    var parsed := if value.Some? then value.value else DEFAULT_LIMIT;
    if parsed < 1 then 1 else if parsed > MAX_LIMIT then MAX_LIMIT else parsed
  }

  /** The database compares texts by their UTF-8 bytes. */
  function Key(s: JsString): JsString { Binary(Encode(s)) }

  predicate TextBelow(a: JsString, b: JsString) { Below(Key(a), Key(b)) }

  predicate RowBelow(a: Row, b: Row) {
    TextBelow(a.at, b.at) || (a.at == b.at && TextBelow(a.id, b.id))
  }

  function CursorTo(last: Row): Option<JsString> { EncodeCursor(HistoryCursor(Trim(last.at), Trim(last.id))) }

  /** What one request sees: the table at that moment, and its own limit. */
  datatype Request = Request(table: seq<Row>, limit: Option<int>)

  type HistoryPage = Page<Row, JsString>

  function ViewOf(r: Request): View<Row> { View(r.table, NormalizeLimit(r.limit)) }

  function Views(requests: seq<Request>): (v: seq<View<Row>>)
    ensures |v| == |requests| && forall i | 0 <= i < |v| :: v[i] == ViewOf(requests[i])
  {
    seq(|requests|, i requires 0 <= i < |requests| => ViewOf(requests[i]))
  }

  function ReadHistory(r: Request, cursorValue: Option<JsString>): HistoryPage {
    ReadPage(RowBelow, DecodeCursor, CursorTo, ViewOf(r), cursorValue)
  }

  /** Following `next_cursor` from a cursor value, one request after the other. */
  function WalkHistory(requests: seq<Request>, cursorValue: Option<JsString>): seq<HistoryPage> {
    Walk(RowBelow, DecodeCursor, CursorTo, Views(requests), cursorValue)
  }

  /** A row whose key is proper text and survives the cursor. */
  predicate ProperRow(r: Row) { Cursorable(r) && WellFormedText(r.at) && WellFormedText(r.id) }

  // ----- the database's order

  lemma KeyInjective(a: JsString, b: JsString)
    requires WellFormedText(a) && WellFormedText(b) && Key(a) == Key(b)
    ensures a == b
  {
    var p, q := Encode(a), Encode(b);
    assert |p| == |Key(a)| == |Key(b)| == |q|;
    assert forall i | 0 <= i < |p| ::
        Key(a)[i] == Key(b)[i] && p[i] as int == Key(a)[i] as int && q[i] as int == Key(b)[i] as int;
    assert p == q;
    RoundTripExactly(a);
    RoundTripExactly(b);
  }

  lemma RowTotal(a: Row, b: Row)
    requires ProperRow(a) && ProperRow(b)
    ensures a == b || RowBelow(a, b) || RowBelow(b, a)
  {
    BelowTotal(Key(a.at), Key(b.at));
    BelowTotal(Key(a.id), Key(b.id));
    if Key(a.at) == Key(b.at) { KeyInjective(a.at, b.at); }
    if Key(a.id) == Key(b.id) { KeyInjective(a.id, b.id); }
  }

  lemma RowIrreflexive(a: Row)
    ensures !RowBelow(a, a)
  {
    BelowIrreflexive(Key(a.at));
    BelowIrreflexive(Key(a.id));
  }

  lemma RowTransitive(a: Row, b: Row, c: Row)
    requires RowBelow(a, b) && RowBelow(b, c)
    ensures RowBelow(a, c)
  {
    if TextBelow(a.at, b.at) {
      if TextBelow(b.at, c.at) { BelowTransitive(Key(a.at), Key(b.at), Key(c.at)); }
    } else if b.at == c.at && !TextBelow(b.at, c.at) {
      BelowTransitive(Key(a.id), Key(b.id), Key(c.id));
    }
  }

  lemma RowsAreOrdered()
    ensures Orders(RowBelow, ProperRow)
  {
    forall a, b, c | RowBelow(a, b) && RowBelow(b, c) ensures RowBelow(a, c) { RowTransitive(a, b, c); }
    forall a, b | ProperRow(a) && ProperRow(b) ensures a == b || RowBelow(a, b) || RowBelow(b, a) { RowTotal(a, b); }
    forall a ensures !RowBelow(a, a) { RowIrreflexive(a); }
  }

  // ----- the cursor

  lemma CursorToRow(r: Row)
    requires ProperRow(r)
    ensures CursorTo(r).Some? && DecodeCursor(CursorTo(r)) == Some(r)
  {
    TrimFixesTrimmed(r.at);
    TrimFixesTrimmed(r.id);
    EncodeCursorNeverThrows(r);
    CursorRoundTripExactly(r);
  }

  lemma CursorsStandForRows()
    ensures Codec(ProperRow, DecodeCursor, CursorTo)
  {
    forall r | ProperRow(r) ensures CursorTo(r).Some? && DecodeCursor(CursorTo(r)) == Some(r) { CursorToRow(r); }
  }

  /** Every table read stores distinct proper rows. */
  ghost predicate AllProper(requests: seq<Request>) {
    forall i | 0 <= i < |requests| :: Stored(ProperRow, requests[i].table)
  }
}
