/** Keyset pagination over any strictly ordered rows, greatest first: each page takes the next rows
    after the last row of the page before. */
module Keyset {
  import opened Prelude

  /** `less` is a strict order, total on the rows that are `ok`. */
  ghost predicate Orders<T(!new)>(less: (T, T) -> bool, ok: T -> bool) {
    && (forall a, b, c :: less(a, b) && less(b, c) ==> less(a, c))
    && (forall a, b :: ok(a) && ok(b) ==> a == b || less(a, b) || less(b, a))
    && (forall a :: !less(a, a))
  }

  function Insert<T>(less: (T, T) -> bool, r: T, rows: seq<T>): seq<T> {
    if rows == [] || less(rows[0], r) then [r] + rows else [rows[0]] + Insert(less, r, rows[1..])
  }

  /** A table stored in any order, sorted with the greatest row first. */
  function Ordered<T>(less: (T, T) -> bool, table: seq<T>): seq<T> {
    if table == [] then [] else Insert(less, table[0], Ordered(less, table[1..]))
  }

  /** The rows strictly below the cursor, in the same order. */
  function After<T>(less: (T, T) -> bool, cursor: Option<T>, rows: seq<T>): seq<T> {
    if rows == [] then []
    else if cursor.Some? && !less(rows[0], cursor.value) then After(less, cursor, rows[1..])
    else [rows[0]] + After(less, cursor, rows[1..])
  }

  function Remaining<T>(less: (T, T) -> bool, table: seq<T>, c: Option<T>): seq<T> {
    After(less, c, Ordered(less, table))
  }

  /** What one request sees: the table at that moment, and its own page size. */
  datatype View<T> = View(table: seq<T>, size: nat)

  /** The rows of each page, reading on from `c`. */
  function PageRows<T>(less: (T, T) -> bool, views: seq<View<T>>, c: Option<T>): seq<seq<T>> {
    if views == [] then []
    else
      var all, n := Remaining(less, views[0].table, c), views[0].size;
      if |all| > n > 0 then [all[..n]] + PageRows(less, views[1..], Some(all[n - 1])) else [all]
  }

  /** The walk has come to a page with no next one. */
  predicate Ends<T>(less: (T, T) -> bool, views: seq<View<T>>, c: Option<T>) {
    && views != []
    && var all, n := Remaining(less, views[0].table, c), views[0].size;
       |all| > n > 0 ==> Ends(less, views[1..], Some(all[n - 1]))
  }

  function Flat<T>(pages: seq<seq<T>>): seq<T> { if pages == [] then [] else pages[0] + Flat(pages[1..]) }

  /** Distinct rows, all of them `ok`. */
  ghost predicate Stored<T>(ok: T -> bool, table: seq<T>) {
    && (forall i | 0 <= i < |table| :: ok(table[i]))
    && (forall i, j | 0 <= i < j < |table| :: table[i] != table[j])
  }

  ghost predicate AllStored<T>(ok: T -> bool, views: seq<View<T>>) {
    forall i | 0 <= i < |views| :: Stored(ok, views[i].table) && views[i].size > 0
  }

  ghost predicate Descending<T>(less: (T, T) -> bool, rows: seq<T>) {
    forall i, j | 0 <= i < j < |rows| :: less(rows[j], rows[i])
  }

  ghost predicate Past<T>(less: (T, T) -> bool, x: T, c: Option<T>) { c.Some? ==> less(x, c.value) }

  // ----- sorting

  lemma {:induction false} InsertHas<T>(less: (T, T) -> bool, r: T, rows: seq<T>, x: T)
    ensures x in Insert(less, r, rows) <==> x == r || x in rows
    ensures |Insert(less, r, rows)| == |rows| + 1
    decreases |rows|
  {
    if rows != [] && !less(rows[0], r) {
      InsertHas(less, r, rows[1..], x);
      assert rows == [rows[0]] + rows[1..];
    }
  }

  lemma {:induction false} InsertDescending<T(!new)>(less: (T, T) -> bool, ok: T -> bool, r: T, rows: seq<T>)
    requires Orders(less, ok) && Descending(less, rows) && r !in rows && ok(r)
             && forall i | 0 <= i < |rows| :: ok(rows[i])
    ensures Descending(less, Insert(less, r, rows))
    decreases |rows|
  {
    if rows == [] {
    } else if less(rows[0], r) {
      forall i | 0 <= i < |rows| ensures less(rows[i], r) {
        if i > 0 { assert less(rows[i], rows[0]); }
      }
    } else {
      var rest := Insert(less, r, rows[1..]);
      InsertDescending(less, ok, r, rows[1..]);
      assert r != rows[0];
      forall i | 0 <= i < |rest| ensures less(rest[i], rows[0]) {
        InsertHas(less, r, rows[1..], rest[i]);
      }
    }
  }

  lemma {:induction false} OrderedHas<T>(less: (T, T) -> bool, table: seq<T>, x: T)
    ensures x in Ordered(less, table) <==> x in table
    decreases |table|
  {
    if table != [] {
      OrderedHas(less, table[1..], x);
      InsertHas(less, table[0], Ordered(less, table[1..]), x);
      assert table == [table[0]] + table[1..];
    }
  }

  lemma {:induction false} OrderedLength<T>(less: (T, T) -> bool, table: seq<T>)
    ensures |Ordered(less, table)| == |table|
    decreases |table|
  {
    if table != [] {
      OrderedLength(less, table[1..]);
      InsertHas(less, table[0], Ordered(less, table[1..]), table[0]);
    }
  }

  /** The sorted table has the table's rows, in strictly descending order. */
  lemma {:induction false} OrderedDescending<T(!new)>(less: (T, T) -> bool, ok: T -> bool, table: seq<T>)
    requires Orders(less, ok) && Stored(ok, table)
    ensures Descending(less, Ordered(less, table))
    decreases |table|
  {
    if table != [] {
      var rest := Ordered(less, table[1..]);
      OrderedDescending(less, ok, table[1..]);
      OrderedHas(less, table[1..], table[0]);
      forall i | 0 <= i < |rest| ensures ok(rest[i]) { OrderedHas(less, table[1..], rest[i]); }
      InsertDescending(less, ok, table[0], rest);
    }
  }

  lemma {:induction false} AfterHas<T>(less: (T, T) -> bool, c: Option<T>, rows: seq<T>, x: T)
    ensures x in After(less, c, rows) <==> x in rows && Past(less, x, c)
    decreases |rows|
  {
    if rows != [] {
      AfterHas(less, c, rows[1..], x);
      assert rows == [rows[0]] + rows[1..];
    }
  }

  lemma {:induction false} AfterDescending<T>(less: (T, T) -> bool, c: Option<T>, rows: seq<T>)
    requires Descending(less, rows)
    ensures Descending(less, After(less, c, rows))
    decreases |rows|
  {
    if rows != [] {
      var rest := After(less, c, rows[1..]);
      AfterDescending(less, c, rows[1..]);
      forall i | 0 <= i < |rest| ensures less(rest[i], rows[0]) {
        AfterHas(less, c, rows[1..], rest[i]);
        var j :| 0 <= j < |rows[1..]| && rows[1..][j] == rest[i];
        assert rows[j + 1] == rest[i];
      }
    }
  }

  lemma RemainingOrdered<T(!new)>(less: (T, T) -> bool, ok: T -> bool, table: seq<T>, c: Option<T>)
    requires Orders(less, ok) && Stored(ok, table)
    ensures Descending(less, Remaining(less, table, c))
    ensures forall i | 0 <= i < |Remaining(less, table, c)| ::
              ok(Remaining(less, table, c)[i]) && Past(less, Remaining(less, table, c)[i], c)
  {
    var all := Remaining(less, table, c);
    OrderedDescending(less, ok, table);
    AfterDescending(less, c, Ordered(less, table));
    forall i | 0 <= i < |all| ensures ok(all[i]) && Past(less, all[i], c) {
      AfterHas(less, c, Ordered(less, table), all[i]);
      OrderedHas(less, table, all[i]);
    }
  }

  lemma RemainingHas<T>(less: (T, T) -> bool, table: seq<T>, c: Option<T>, x: T)
    ensures x in Remaining(less, table, c) <==> x in table && Past(less, x, c)
  {
    AfterHas(less, c, Ordered(less, table), x);
    OrderedHas(less, table, x);
  }

  // ----- walking

  lemma FlatFirst<T>(page: seq<T>, more: seq<seq<T>>)
    ensures Flat([page] + more) == page + Flat(more)
  {
    assert ([page] + more)[1..] == more;
  }

  lemma DescendingAppend<T(!new)>(less: (T, T) -> bool, ok: T -> bool, a: seq<T>, b: seq<T>)
    requires Orders(less, ok) && Descending(less, a) && Descending(less, b)
    requires a != [] ==> forall j | 0 <= j < |b| :: less(b[j], a[|a| - 1])
    ensures Descending(less, a + b)
  {
    forall i, j | 0 <= i < |a| && 0 <= j < |b| ensures less(b[j], a[i]) {
      if i < |a| - 1 { assert less(b[j], a[|a| - 1]) && less(a[|a| - 1], a[i]); }
    }
  }

  /** The walk reads strictly descending rows past its cursor. */
  lemma {:induction false} WalkDescends<T(!new)>(less: (T, T) -> bool, ok: T -> bool, views: seq<View<T>>, c: Option<T>)
    requires Orders(less, ok) && AllStored(ok, views)
    ensures Descending(less, Flat(PageRows(less, views, c)))
    ensures forall i | 0 <= i < |Flat(PageRows(less, views, c))| :: Past(less, Flat(PageRows(less, views, c))[i], c)
    decreases |views|
  {
    if views != [] {
      var all, n := Remaining(less, views[0].table, c), views[0].size;
      RemainingOrdered(less, ok, views[0].table, c);
      if |all| > n {
        var last, more := all[n - 1], PageRows(less, views[1..], Some(all[n - 1]));
        WalkDescends(less, ok, views[1..], Some(last));
        FlatFirst(all[..n], more);
        DescendingAppend(less, ok, all[..n], Flat(more));
        forall i | 0 <= i < |Flat(more)| ensures Past(less, Flat(more)[i], c) {
          assert Past(less, Flat(more)[i], Some(last)) && Past(less, last, c);
        }
      } else {
        FlatFirst(all, []);
        assert [all] + [] == [all] && all + [] == all;
      }
    }
  }

  /** A row in every table read is read, if the walk comes to its end. */
  lemma {:induction false} WalkCovers<T(!new)>(less: (T, T) -> bool, ok: T -> bool, views: seq<View<T>>, c: Option<T>,
                                               x: T)
    requires Orders(less, ok) && AllStored(ok, views) && Past(less, x, c) && Ends(less, views, c)
    requires forall i | 0 <= i < |PageRows(less, views, c)| && i < |views| :: x in views[i].table
    ensures x in Flat(PageRows(less, views, c))
    decreases |views|
  {
    var all, n := Remaining(less, views[0].table, c), views[0].size;
    assert x in views[0].table;
    RemainingHas(less, views[0].table, c, x);
    RemainingOrdered(less, ok, views[0].table, c);
    var k :| 0 <= k < |all| && all[k] == x;
    if |all| > n {
      var more := PageRows(less, views[1..], Some(all[n - 1]));
      FlatFirst(all[..n], more);
      if k < n {
        assert all[..n][k] == x;
      } else {
        forall i | 0 <= i < |more| && i < |views[1..]| ensures x in views[1..][i].table {
          assert x in views[i + 1].table;
        }
        WalkCovers(less, ok, views[1..], Some(all[n - 1]), x);
      }
    } else {
      FlatFirst(all, []);
      assert [all] + [] == [all] && all + [] == all;
    }
  }

  // ----- a table that does not change

  lemma {:induction false} AllAfter<T>(less: (T, T) -> bool, rows: seq<T>, c: Option<T>)
    requires forall i | 0 <= i < |rows| :: Past(less, rows[i], c)
    ensures After(less, c, rows) == rows
    decreases |rows|
  {
    if rows != [] {
      AllAfter(less, rows[1..], c);
      assert rows == [rows[0]] + rows[1..];
    }
  }

  lemma {:induction false} AfterSuffix<T(!new)>(less: (T, T) -> bool, ok: T -> bool, rows: seq<T>, k: nat)
    requires Orders(less, ok) && Descending(less, rows) && k < |rows|
    ensures After(less, Some(rows[k]), rows) == rows[k + 1..]
    decreases k
  {
    if k == 0 {
      AllAfter(less, rows[1..], Some(rows[0]));
    } else {
      assert less(rows[k], rows[0]);
      assert !less(rows[0], rows[k]);
      AfterSuffix(less, ok, rows[1..], k - 1);
      assert rows[1..][k..] == rows[k + 1..];
    }
  }

  /** Pages of `n` rows that a table needs: at least one. */
  function PagesFor(rows: nat, n: nat): nat
    requires n > 0
  {
    if rows <= n then 1 else 1 + PagesFor(rows - n, n)
  }

  lemma MulAtLeast(k: nat, n: nat)
    requires k > 0
    ensures k * n >= n
  {
  }

  lemma QuotientIs(a: nat, n: nat, q: nat, r: nat)
    requires 0 < n && a == q * n + r && r < n
    ensures a / n == q
  {
    var p := a / n;
    assert a == p * n + a % n;
    assert (q - p) * n == q * n - p * n;
    if p < q { MulAtLeast(q - p, n); }
    if q < p { MulAtLeast(p - q, n); }
  }

  lemma OneMore(a: nat, n: nat)
    requires n > 0
    ensures (a + n) / n == a / n + 1
  {
    assert a + n == (a / n + 1) * n + a % n;
    QuotientIs(a + n, n, a / n + 1, a % n);
  }

  lemma {:induction false} PagesForIsCeiling(rows: nat, n: nat)
    requires n > 0
    ensures PagesFor(rows, n) == if rows == 0 then 1 else (rows + n - 1) / n
    decreases rows
  {
    if rows > n {
      PagesForIsCeiling(rows - n, n);
      OneMore(rows - 1, n);
    } else if rows > 0 {
      QuotientIs(rows + n - 1, n, 1, rows - 1);
    }
  }

  ghost predicate Repeats<T>(views: seq<View<T>>, table: seq<T>, n: nat) {
    forall i | 0 <= i < |views| :: views[i] == View(table, n)
  }

  lemma NextSuffix<T(!new)>(less: (T, T) -> bool, ok: T -> bool, table: seq<T>, j: nat)
    requires Orders(less, ok) && Stored(ok, table) && j < |Ordered(less, table)|
    ensures Remaining(less, table, Some(Ordered(less, table)[j])) == Ordered(less, table)[j + 1..]
  {
    OrderedDescending(less, ok, table);
    AfterSuffix(less, ok, Ordered(less, table), j);
  }

  lemma SuffixSplit<T>(rows: seq<T>, k: nat, n: nat)
    requires k + n <= |rows|
    ensures rows[k..] == rows[k..][..n] + rows[k + n..]
  {
  }

  /** The first page, and the rest of the walk. */
  lemma FirstPage<T>(less: (T, T) -> bool, views: seq<View<T>>, c: Option<T>)
    requires views != [] && views[0].size > 0
    ensures var all, n := Remaining(less, views[0].table, c), views[0].size;
            var pages := PageRows(less, views, c);
            if |all| > n
            then var more := PageRows(less, views[1..], Some(all[n - 1]));
                 && |pages| == 1 + |more| && Flat(pages) == all[..n] + Flat(more)
                 && (Ends(less, views, c) <==> Ends(less, views[1..], Some(all[n - 1])))
            else |pages| == 1 && Flat(pages) == all && Ends(less, views, c)
  {
    hide Remaining;
    var all, n := Remaining(less, views[0].table, c), views[0].size;
    if |all| > n {
      FlatFirst(all[..n], PageRows(less, views[1..], Some(all[n - 1])));
    } else {
      FlatFirst(all, []);
      assert [all] + [] == [all] && all + [] == all;
    }
  }

  /** Reading on after `k` rows of a table that stands still: the rest of it, in as few pages as it takes. */
  lemma {:induction false} FixedWalk<T(!new)>(
    less: (T, T) -> bool, ok: T -> bool, table: seq<T>, n: nat, c: Option<T>, k: nat, views: seq<View<T>>)
    requires Orders(less, ok) && Stored(ok, table) && n > 0 && Repeats(views, table, n) && k <= |Ordered(less, table)|
    requires Remaining(less, table, c) == Ordered(less, table)[k..]
    requires |views| >= PagesFor(|Ordered(less, table)| - k, n)
    ensures Ends(less, views, c) && |PageRows(less, views, c)| == PagesFor(|Ordered(less, table)| - k, n)
    ensures Flat(PageRows(less, views, c)) == Ordered(less, table)[k..]
    decreases |views|
  {
    hide Ordered, Stored, Orders, PageRows, Ends, Remaining, Flat;
    var rows := Ordered(less, table);
    var all := rows[k..];
    assert views[0] == View(table, n);
    FirstPage(less, views, c);
    if |all| > n {
      NextSuffix(less, ok, table, k + n - 1);
      FixedWalk(less, ok, table, n, Some(all[n - 1]), k + n, views[1..]);
      SuffixSplit(rows, k, n);
    }
  }

  // ----- pages read through an encoded cursor

  function Take<T>(rows: seq<T>, n: nat): seq<T> { if n < |rows| then rows[..n] else rows }

  datatype Page<T, C> = Page(rows: seq<T>, size: nat, hasMore: bool, next: Option<C>)

  /** One request: sort, filter past the cursor, and take one row more than the page to see whether
      there is a next page. */
  function ReadPage<T, C>(less: (T, T) -> bool, decode: Option<C> -> Option<T>, cursorTo: T -> Option<C>,
                          v: View<T>, cursorValue: Option<C>): Page<T, C>
  {
    var rows := Take(Remaining(less, v.table, decode(cursorValue)), v.size + 1);
    var hasMore := |rows| > v.size;
    var pageRows := Take(rows, v.size);
    Page(pageRows, v.size, hasMore, if hasMore && pageRows != [] then cursorTo(pageRows[|pageRows| - 1]) else None)
  }

  /** Following the next cursor for as long as there is one. */
  function Walk<T, C>(less: (T, T) -> bool, decode: Option<C> -> Option<T>, cursorTo: T -> Option<C>,
                      views: seq<View<T>>, cursorValue: Option<C>): seq<Page<T, C>>
  {
    if views == [] then []
    else
      var page := ReadPage(less, decode, cursorTo, views[0], cursorValue);
      [page] + if page.next.Some? then Walk(less, decode, cursorTo, views[1..], page.next) else []
  }

  function Collected<T, C>(pages: seq<Page<T, C>>): seq<T> {
    if pages == [] then [] else pages[0].rows + Collected(pages[1..])
  }

  /** The walk has read a last page: one without a next cursor. */
  predicate Finished<T, C>(pages: seq<Page<T, C>>) {
    pages != [] && pages[|pages| - 1].next.None?
  }

  /** The cursor to an `ok` row is read back as that row, and no cursor as none. */
  ghost predicate Codec<T(!new), C(!new)>(ok: T -> bool, decode: Option<C> -> Option<T>, cursorTo: T -> Option<C>) {
    && decode(None) == None
    && forall r :: ok(r) ==> cursorTo(r).Some? && decode(cursorTo(r)) == Some(r)
  }

  lemma StepOfWalk<T, C>(page: Page<T, C>, rest: seq<Page<T, C>>, rows: seq<T>, more: seq<seq<T>>)
    requires page.rows == rows && Collected(rest) == Flat(more)
    ensures Collected([page] + rest) == Flat([rows] + more)
    ensures Finished([page] + rest) <==> if rest == [] then page.next.None? else Finished(rest)
  {
    assert ([page] + rest)[1..] == rest && ([rows] + more)[1..] == more;
  }

  /** The encoded walk is the keyset walk: cursors stand exactly for the last row read. */
  lemma {:induction false} EncodedWalk<T(!new), C(!new)>(
    less: (T, T) -> bool, ok: T -> bool, decode: Option<C> -> Option<T>, cursorTo: T -> Option<C>,
    views: seq<View<T>>, c: Option<T>, cursorValue: Option<C>)
    requires Orders(less, ok) && Codec(ok, decode, cursorTo) && AllStored(ok, views)
    requires decode(cursorValue) == c
    ensures var pages := Walk(less, decode, cursorTo, views, cursorValue);
            && |pages| == |PageRows(less, views, c)| <= |views|
            && Collected(pages) == Flat(PageRows(less, views, c))
            && (Finished(pages) <==> Ends(less, views, c))
    decreases |views|
  {
    hide Remaining, Orders, Stored, Descending;
    if views != [] {
      var all, n := Remaining(less, views[0].table, c), views[0].size;
      var page := ReadPage(less, decode, cursorTo, views[0], cursorValue);
      RemainingOrdered(less, ok, views[0].table, c);
      if |all| > n {
        assert page.rows == all[..n] && page.next == cursorTo(all[n - 1]);
        EncodedWalk(less, ok, decode, cursorTo, views[1..], Some(all[n - 1]), page.next);
        StepOfWalk(page, Walk(less, decode, cursorTo, views[1..], page.next), all[..n],
                   PageRows(less, views[1..], Some(all[n - 1])));
      } else {
        StepOfWalk(page, [], all, []);
        assert [page] + [] == [page] && [all] + [] == [all];
      }
    }
  }

  // ----- the main results

  /** Tables and page sizes may change between reads: rows come in strictly descending order, and when
      the walk ends every row that was in the table at each read has been returned. */
  lemma LastingRowsOnce<T(!new), C(!new)>(
    less: (T, T) -> bool, ok: T -> bool, decode: Option<C> -> Option<T>, cursorTo: T -> Option<C>, views: seq<View<T>>)
    requires Orders(less, ok) && Codec(ok, decode, cursorTo) && AllStored(ok, views)
    ensures var pages := Walk(less, decode, cursorTo, views, None);
            && Descending(less, Collected(pages))
            && (forall i, j | 0 <= i < j < |Collected(pages)| :: Collected(pages)[i] != Collected(pages)[j])
            && |pages| <= |views|
            && (Finished(pages) ==>
                  forall x: T | (forall i | 0 <= i < |pages| :: x in views[i].table) :: x in Collected(pages))
  {
    var pages := Walk(less, decode, cursorTo, views, None);
    EncodedWalk(less, ok, decode, cursorTo, views, None, None);
    WalkDescends(less, ok, views, None);
    if Finished(pages) {
      forall x: T | forall i | 0 <= i < |pages| :: x in views[i].table ensures x in Collected(pages) {
        WalkCovers(less, ok, views, None, x);
      }
    }
  }

  function PageCount(rows: nat, n: nat): nat
    requires n > 0
  {
    if rows == 0 then 1 else (rows + n - 1) / n
  }

  /** On a table that stands still the pages put together are the sorted table, in as few pages as fit. */
  lemma StillTable<T(!new), C(!new)>(
    less: (T, T) -> bool, ok: T -> bool, decode: Option<C> -> Option<T>, cursorTo: T -> Option<C>,
    table: seq<T>, n: nat, views: seq<View<T>>)
    requires Orders(less, ok) && Codec(ok, decode, cursorTo) && Stored(ok, table) && n > 0
    requires Repeats(views, table, n) && |views| >= PageCount(|table|, n)
    ensures var pages := Walk(less, decode, cursorTo, views, None);
            Finished(pages) && Collected(pages) == Ordered(less, table) && |pages| == PageCount(|table|, n)
  {
    PagesForIsCeiling(|table|, n);
    AllAfter(less, Ordered(less, table), None);
    OrderedLength(less, table);
    assert Ordered(less, table)[0..] == Ordered(less, table);
    FixedWalk(less, ok, table, n, None, 0, views);
    EncodedWalk(less, ok, decode, cursorTo, views, None, None);
  }

  // ----- how long a walk takes

  /** The rows of `all` past the cursor. */
  ghost function PastOf<T(!new)>(less: (T, T) -> bool, all: set<T>, c: Option<T>): set<T> {
    set x | x in all && Past(less, x, c)
  }

  lemma SmallerSet<T>(a: set<T>, b: set<T>, x: T)
    requires a <= b && x in b && x !in a
    ensures |a| < |b|
  {
    assert |b| == |a| + |b - a| by { assert b == a + (b - a); }
    assert x in b - a;
  }

  ghost predicate DrawnFrom<T(!new)>(views: seq<View<T>>, all: set<T>) {
    forall i, x | 0 <= i < |views| && x in views[i].table :: x in all
  }

  /** A walk whose tables draw on finitely many rows comes to its end within as many pages, or one. */
  lemma {:induction false} WalkEnds<T(!new)>(
    less: (T, T) -> bool, ok: T -> bool, views: seq<View<T>>, c: Option<T>, all: set<T>)
    requires Orders(less, ok) && AllStored(ok, views) && DrawnFrom(views, all)
    requires |views| >= 1 && |views| >= |PastOf(less, all, c)|
    ensures Ends(less, views, c)
    ensures |PageRows(less, views, c)| <= 1 || |PageRows(less, views, c)| <= |PastOf(less, all, c)|
    decreases |views|
  {
    var rows, n := Remaining(less, views[0].table, c), views[0].size;
    if |rows| > n {
      var last := rows[n - 1];
      RemainingOrdered(less, ok, views[0].table, c);
      RemainingHas(less, views[0].table, c, last);
      RemainingHas(less, views[0].table, c, rows[n]);
      var now, next := PastOf(less, all, c), PastOf(less, all, Some(last));
      assert next <= now by {
        forall x | x in next ensures x in now { if c.Some? { assert less(x, last) && less(last, c.value); } }
      }
      assert last in views[0].table && last in now && last !in next;
      assert rows[n] in views[0].table && less(rows[n], last) && rows[n] in next;
      SmallerSet(next, now, last);
      SmallerSet({}, next, rows[n]);
      forall i, x | 0 <= i < |views[1..]| && x in views[1..][i].table ensures x in all {
        assert x in views[i + 1].table;
      }
      WalkEnds(less, ok, views[1..], Some(last), all);
    }
  }

  lemma WalkFinishes<T(!new), C(!new)>(
    less: (T, T) -> bool, ok: T -> bool, decode: Option<C> -> Option<T>, cursorTo: T -> Option<C>,
    views: seq<View<T>>, all: set<T>)
    requires Orders(less, ok) && Codec(ok, decode, cursorTo) && AllStored(ok, views) && DrawnFrom(views, all)
    requires |views| >= 1 && |views| >= |all|
    ensures var pages := Walk(less, decode, cursorTo, views, None);
            Finished(pages) && (|pages| <= 1 || |pages| <= |all|)
  {
    assert PastOf(less, all, None) == all;
    WalkEnds(less, ok, views, None, all);
    EncodedWalk(less, ok, decode, cursorTo, views, None, None);
  }

  // ----- a row whose key rises between reads

  /** `keys[i]` is what the row is at read `i`: it is in that table, and never falls. */
  ghost predicate Rises<T(!new)>(less: (T, T) -> bool, views: seq<View<T>>, keys: seq<T>) {
    && |keys| == |views|
    && (forall i | 0 <= i < |views| :: keys[i] in views[i].table)
    && forall i | 0 <= i < |views| - 1 :: keys[i] == keys[i + 1] || less(keys[i], keys[i + 1])
  }

  lemma RisesOn<T(!new)>(less: (T, T) -> bool, views: seq<View<T>>, keys: seq<T>)
    requires Rises(less, views, keys) && views != []
    ensures Rises(less, views[1..], keys[1..])
  {
    forall i | 0 <= i < |views[1..]| ensures keys[1..][i] in views[1..][i].table {
      assert keys[i + 1] in views[i + 1].table;
    }
    forall i | 0 <= i < |views[1..]| - 1
      ensures keys[1..][i] == keys[1..][i + 1] || less(keys[1..][i], keys[1..][i + 1])
    {
      assert keys[i + 1] == keys[i + 1 + 1] || less(keys[i + 1], keys[i + 1 + 1]);
    }
  }

  ghost predicate Shown<T(!new)>(pages: seq<seq<T>>, keys: seq<T>) {
    exists i | 0 <= i < |pages| && i < |keys| :: keys[i] in pages[i]
  }

  lemma ShownFirstOrLater<T(!new)>(page: seq<T>, more: seq<seq<T>>, keys: seq<T>)
    requires keys != []
    ensures Shown([page] + more, keys) <==> keys[0] in page || Shown(more, keys[1..])
  {
    var pages := [page] + more;
    if Shown(more, keys[1..]) {
      var i :| 0 <= i < |more| && i < |keys[1..]| && keys[1..][i] in more[i];
      assert keys[i + 1] in pages[i + 1];
    }
    if keys[0] in page { assert keys[0] in pages[0]; }
    if Shown(pages, keys) && keys[0] !in page {
      var i :| 0 <= i < |pages| && i < |keys| && keys[i] in pages[i];
      assert keys[1..][i - 1] in more[i - 1];
    }
  }

  /** At one of the reads the row is still below the page, and at the next it no longer is. */
  ghost predicate Overtaken<T(!new)>(less: (T, T) -> bool, pages: seq<seq<T>>, keys: seq<T>) {
    exists i | 0 <= i < |pages| - 1 && i < |keys| - 1 :: Overtakes(less, pages[i], keys[i], keys[i + 1])
  }

  predicate Overtakes<T>(less: (T, T) -> bool, page: seq<T>, key: T, risen: T) {
    page != [] && less(key, page[|page| - 1]) && !less(risen, page[|page| - 1])
  }

  lemma OvertakenFirstOrLater<T(!new)>(less: (T, T) -> bool, page: seq<T>, more: seq<seq<T>>, keys: seq<T>)
    requires |keys| >= 2 && more != []
    ensures Overtaken(less, [page] + more, keys)
            <==> Overtakes(less, page, keys[0], keys[1]) || Overtaken(less, more, keys[1..])
  {
    var pages := [page] + more;
    if Overtaken(less, more, keys[1..]) {
      var i :| 0 <= i < |more| - 1 && i < |keys[1..]| - 1 && Overtakes(less, more[i], keys[1..][i], keys[1..][i + 1]);
      assert Overtakes(less, pages[i + 1], keys[i + 1], keys[i + 1 + 1]);
    }
    if Overtakes(less, page, keys[0], keys[1]) { assert Overtakes(less, pages[0], keys[0], keys[0 + 1]); }
    if Overtaken(less, pages, keys) && !Overtakes(less, page, keys[0], keys[1]) {
      var i :| 0 <= i < |pages| - 1 && i < |keys| - 1 && Overtakes(less, pages[i], keys[i], keys[i + 1]);
      assert Overtakes(less, more[i - 1], keys[1..][i - 1], keys[1..][i - 1 + 1]);
    }
  }

  /** Once the cursor has passed the row, it is neither shown nor overtaken again. */
  lemma {:induction false} PassedForGood<T(!new)>(
    less: (T, T) -> bool, ok: T -> bool, views: seq<View<T>>, c: Option<T>, keys: seq<T>)
    requires Orders(less, ok) && AllStored(ok, views) && Rises(less, views, keys) && views != []
    requires !Past(less, keys[0], c)
    ensures !Shown(PageRows(less, views, c), keys) && !Overtaken(less, PageRows(less, views, c), keys)
    decreases |views|
  {
    hide Remaining, Shown, Overtaken, Descending;
    var all, n := Remaining(less, views[0].table, c), views[0].size;
    RemainingOrdered(less, ok, views[0].table, c);
    if |all| > n {
      var last, more := all[n - 1], PageRows(less, views[1..], Some(all[n - 1]));
      assert Past(less, last, c) && Past(less, all[0], c);
      ShownFirstOrLater(all[..n], more, keys);
      NotListed(less, views[0].table, c, keys[0], n);
      if |views| > 1 {
        StillPassed(less, keys[0], keys[1], last, c);
        RisesOn(less, views, keys);
        PassedForGood(less, ok, views[1..], Some(last), keys[1..]);
        OvertakenFirstOrLater(less, all[..n], more, keys);
      } else {
        assert [all[..n]] + more == [all[..n]];
        NeverOvertakenOnce(less, all[..n], keys);
        NothingShown(keys[1..]);
      }
    } else {
      ShownFirstOrLater(all, [], keys);
      assert [all] + [] == [all];
      NeverOvertakenOnce(less, all, keys);
      NothingShown(keys[1..]);
      NotListed(less, views[0].table, c, keys[0], |all|);
      assert all[..|all|] == all;
    }
  }

  lemma NothingShown<T(!new)>(keys: seq<T>)
    ensures !Shown([], keys)
  {
  }

  lemma NotListed<T(!new)>(less: (T, T) -> bool, table: seq<T>, c: Option<T>, x: T, n: nat)
    requires !Past(less, x, c) && n <= |Remaining(less, table, c)|
    ensures x !in Remaining(less, table, c)[..n]
  {
    RemainingHas(less, table, c, x);
  }

  lemma StillPassed<T(!new)>(less: (T, T) -> bool, key: T, risen: T, last: T, c: Option<T>)
    requires forall a, b, d :: less(a, b) && less(b, d) ==> less(a, d)
    requires (key == risen || less(key, risen)) && !Past(less, key, c) && Past(less, last, c)
    ensures !less(key, last) && !less(risen, last)
  {
  }

  /** In a walk that comes to its end, a row that is in every table and whose key never falls is missed exactly
      when some page ends above it and at the next read it is no longer below that page's end. */
  lemma {:induction false} MissedExactly<T(!new)>(
    less: (T, T) -> bool, ok: T -> bool, views: seq<View<T>>, c: Option<T>, keys: seq<T>)
    requires Orders(less, ok) && AllStored(ok, views) && Rises(less, views, keys) && views != []
    requires Ends(less, views, c) && Past(less, keys[0], c)
    ensures !Shown(PageRows(less, views, c), keys) <==> Overtaken(less, PageRows(less, views, c), keys)
    decreases |views|
  {
    hide Remaining, Shown, Overtaken, Descending;
    var all, n := Remaining(less, views[0].table, c), views[0].size;
    RemainingHas(less, views[0].table, c, keys[0]);
    RemainingOrdered(less, ok, views[0].table, c);
    var k :| 0 <= k < |all| && all[k] == keys[0];
    if |all| > n {
      var last, more := all[n - 1], PageRows(less, views[1..], Some(all[n - 1]));
      RisesOn(less, views, keys);
      ShownFirstOrLater(all[..n], more, keys);
      OvertakenFirstOrLater(less, all[..n], more, keys);
      ListedByPlace(less, ok, all, n, k);
      assert keys[0] == keys[1] || less(keys[0], keys[1]);
      if less(keys[1], last) {
        MissedExactly(less, ok, views[1..], Some(last), keys[1..]);
      } else {
        PassedForGood(less, ok, views[1..], Some(last), keys[1..]);
      }
    } else {
      ShownFirstOrLater(all, [], keys);
      NeverOvertakenOnce(less, all, keys);
      assert [all] + [] == [all];
    }
  }

  lemma NeverOvertakenOnce<T(!new)>(less: (T, T) -> bool, page: seq<T>, keys: seq<T>)
    ensures !Overtaken(less, [page], keys)
  {
  }

  lemma ListedByPlace<T(!new)>(less: (T, T) -> bool, ok: T -> bool, all: seq<T>, n: nat, k: nat)
    requires Orders(less, ok) && Descending(less, all) && 0 < n <= |all| && k < |all|
    ensures all[k] in all[..n] <==> k < n
    ensures k >= n <==> less(all[k], all[n - 1])
  {
    if k < n { assert all[..n][k] == all[k]; }
  }

  /** The row is on two of the pages. */
  ghost predicate ShownTwice<T(!new)>(pages: seq<seq<T>>, keys: seq<T>) {
    exists i, j | 0 <= i < j < |pages| && j < |keys| :: keys[i] in pages[i] && keys[j] in pages[j]
  }

  lemma ShownTwiceOnwards<T(!new)>(page: seq<T>, more: seq<seq<T>>, keys: seq<T>)
    requires keys != [] && ShownTwice([page] + more, keys)
    ensures ShownTwice(more, keys[1..]) || (keys[0] in page && Shown(more, keys[1..]))
  {
    var pages := [page] + more;
    var i, j :| 0 <= i < j < |pages| && j < |keys| && keys[i] in pages[i] && keys[j] in pages[j];
    assert keys[1..][j - 1] in more[j - 1];
    if i > 0 { assert keys[1..][i - 1] in more[i - 1]; }
  }

  /** A row that is in every table and whose key never falls is on one page at most. */
  lemma {:induction false} ShownOnce<T(!new)>(
    less: (T, T) -> bool, ok: T -> bool, views: seq<View<T>>, c: Option<T>, keys: seq<T>)
    requires Orders(less, ok) && AllStored(ok, views) && Rises(less, views, keys)
    ensures !ShownTwice(PageRows(less, views, c), keys)
    decreases |views|
  {
    hide Remaining, Shown, ShownTwice, Descending;
    var pages := PageRows(less, views, c);
    if views == [] || |views| == 1 {
      FewPages(less, views, c);
      TwiceNeedsTwo(pages, keys);
    } else if ShownTwice(pages, keys) {
      var all, n := Remaining(less, views[0].table, c), views[0].size;
      RisesOn(less, views, keys);
      RemainingOrdered(less, ok, views[0].table, c);
      if |all| > n {
        var last := all[n - 1];
        ShownTwiceOnwards(all[..n], PageRows(less, views[1..], Some(last)), keys);
        ShownOnce(less, ok, views[1..], Some(last), keys[1..]);
        if keys[0] in all[..n] {
          AboveTheEnd(less, ok, all, n, keys[0], keys[1]);
          PassedForGood(less, ok, views[1..], Some(last), keys[1..]);
        }
      } else {
        TwiceNeedsTwo(pages, keys);
      }
    }
  }

  lemma {:induction false} FewPages<T>(less: (T, T) -> bool, views: seq<View<T>>, c: Option<T>)
    ensures |PageRows(less, views, c)| <= |views|
    decreases |views|
  {
    hide Remaining;
    if views != [] {
      var all, n := Remaining(less, views[0].table, c), views[0].size;
      if |all| > n > 0 { FewPages(less, views[1..], Some(all[n - 1])); }
    }
  }

  lemma TwiceNeedsTwo<T(!new)>(pages: seq<seq<T>>, keys: seq<T>)
    requires |pages| <= 1
    ensures !ShownTwice(pages, keys)
  {
  }

  /** What is on a page does not fall below its end by rising. */
  lemma AboveTheEnd<T(!new)>(less: (T, T) -> bool, ok: T -> bool, all: seq<T>, n: nat, key: T, risen: T)
    requires Orders(less, ok) && Descending(less, all) && 0 < n <= |all| && key in all[..n]
    requires key == risen || less(key, risen)
    ensures !less(risen, all[n - 1])
  {
    var i :| 0 <= i < n && all[i] == key;
    assert i == n - 1 || less(all[n - 1], all[i]);
  }

  /** Each encoded page has the rows of the keyset page. */
  lemma {:induction false} EncodedPages<T(!new), C(!new)>(
    less: (T, T) -> bool, ok: T -> bool, decode: Option<C> -> Option<T>, cursorTo: T -> Option<C>,
    views: seq<View<T>>, c: Option<T>, cursorValue: Option<C>)
    requires Orders(less, ok) && Codec(ok, decode, cursorTo) && AllStored(ok, views)
    requires decode(cursorValue) == c
    ensures RowsOf(Walk(less, decode, cursorTo, views, cursorValue)) == PageRows(less, views, c)
    decreases |views|
  {
    hide Remaining, Descending, Orders;
    if views != [] {
      var all, n := Remaining(less, views[0].table, c), views[0].size;
      var page := ReadPage(less, decode, cursorTo, views[0], cursorValue);
      RemainingOrdered(less, ok, views[0].table, c);
      if |all| > n {
        assert page.rows == all[..n] && page.next == cursorTo(all[n - 1]);
        EncodedPages(less, ok, decode, cursorTo, views[1..], Some(all[n - 1]), page.next);
      } else {
        assert page.rows == all;
      }
    }
  }

  function RowsOf<T, C>(pages: seq<Page<T, C>>): seq<seq<T>> {
    seq(|pages|, i requires 0 <= i < |pages| => pages[i].rows)
  }

  lemma WalkMissesExactly<T(!new), C(!new)>(
    less: (T, T) -> bool, ok: T -> bool, decode: Option<C> -> Option<T>, cursorTo: T -> Option<C>,
    views: seq<View<T>>, keys: seq<T>)
    requires Orders(less, ok) && Codec(ok, decode, cursorTo) && AllStored(ok, views) && Rises(less, views, keys)
    requires Finished(Walk(less, decode, cursorTo, views, None))
    ensures var rows := RowsOf(Walk(less, decode, cursorTo, views, None));
            !Shown(rows, keys) <==> Overtaken(less, rows, keys)
  {
    EncodedWalk(less, ok, decode, cursorTo, views, None, None);
    EncodedPages(less, ok, decode, cursorTo, views, None, None);
    MissedExactly(less, ok, views, None, keys);
  }

  lemma WalkShowsOnce<T(!new), C(!new)>(
    less: (T, T) -> bool, ok: T -> bool, decode: Option<C> -> Option<T>, cursorTo: T -> Option<C>,
    views: seq<View<T>>, keys: seq<T>)
    requires Orders(less, ok) && Codec(ok, decode, cursorTo) && AllStored(ok, views) && Rises(less, views, keys)
    ensures !ShownTwice(RowsOf(Walk(less, decode, cursorTo, views, None)), keys)
  {
    EncodedPages(less, ok, decode, cursorTo, views, None, None);
    ShownOnce(less, ok, views, None, keys);
  }

  lemma OrderedPair<T>(less: (T, T) -> bool, a: T, b: T)
    requires less(a, b) <==> !less(b, a)
    ensures Ordered(less, [a, b]) == if less(b, a) then [a, b] else [b, a]
  {
    assert [a, b][1..] == [b] && [b][1..] == [];
    assert Ordered(less, [b]) == [b] && Insert(less, a, []) == [a];
  }

  /** Two reads of one row each past a row whose key rises from below the first page to above it. */
  lemma RisenRowSkipped<T>(less: (T, T) -> bool, a: T, low: T, high: T)
    requires less(low, a) && less(a, high) && !less(a, low) && !less(high, a) && !less(a, a)
    ensures var views := [View([a, low], 1), View([a, high], 1)];
            Ends(less, views, None) && Flat(PageRows(less, views, None)) == [a]
  {
    OrderedPair(less, a, low);
    OrderedPair(less, a, high);
    AllAfter(less, [a, low], None);
    assert [high, a][1..] == [a] && [a][1..] == [];
    assert After(less, Some(a), [high, a]) == After(less, Some(a), [a]) == [];
    var views := [View([a, low], 1), View([a, high], 1)];
    assert views[1..] == [View([a, high], 1)];
    var none: seq<seq<T>> := [[]];
    assert PageRows(less, views[1..], Some(a)) == none;
    assert PageRows(less, views, None) == [[a, low][..1]] + none;
    FlatFirst([a, low][..1], none);
    FlatFirst<T>([], []);
    assert none == [[]] + [];
  }

  /** A row that jumps over the cursor between two reads is never returned. */
  lemma RisenRowMissed<T(!new), C(!new)>(
    less: (T, T) -> bool, ok: T -> bool, decode: Option<C> -> Option<T>, cursorTo: T -> Option<C>, a: T, low: T,
      high: T)
    requires Orders(less, ok) && Codec(ok, decode, cursorTo) && ok(a) && ok(low) && ok(high)
    requires less(low, a) && less(a, high)
    ensures var pages := Walk(less, decode, cursorTo, [View([a, low], 1), View([a, high], 1)], None);
            Finished(pages) && Collected(pages) == [a]
  {
    assert !less(a, a);
    assert !less(a, low) && !less(high, a);
    RisenRowSkipped(less, a, low, high);
    EncodedWalk(less, ok, decode, cursorTo, [View([a, low], 1), View([a, high], 1)], None, None);
  }
}
