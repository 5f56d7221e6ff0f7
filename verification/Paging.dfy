/**
  Cursor pagination over a fixed ordered list of rows, as the retirement, project
  and marketplace listings do it.
 */
module Paging {
  import opened Platform

  datatype Row = Row(id: string, data: string)

  /** `next` is the cursor of the following page, None on the last page. */
  datatype Page = Page(rows: seq<Row>, next: Option<string>)

  function Min(a: int, b: int): int {
    if a < b then a else b
  }

  function Max(a: int, b: int): int {
    if a > b then a else b
  }

  /** The page size of the services that clamp the requested limit. */
  function Clamp(limit: int): (take: nat)
    ensures 1 <= take <= 100 && (1 <= limit <= 100 ==> take == limit)
    ensures (limit < 1 ==> take == 1) && (limit > 100 ==> take == 100)
  {
    Min(Max(limit, 1), 100)
  }

  predicate ValidIds(rows: seq<Row>) {
    && (forall i :: 0 <= i < |rows| ==> rows[i].id != "")
    && (forall i, j :: 0 <= i < j < |rows| ==> rows[i].id != rows[j].id)
  }

  /** The rows after the one with the given id; none if there is no such row. */
  function RowsAfter(rows: seq<Row>, id: string): seq<Row> {
    if rows == [] then [] else if rows[0].id == id then rows[1..] else RowsAfter(rows[1..], id)
  }

  /** The database query: an absent or empty cursor starts at the first row, another skips its own row. */
  function FindMany(rows: seq<Row>, cursor: Option<string>, take: nat): seq<Row> {
    var from := if cursor.Some? && cursor.value != "" then RowsAfter(rows, cursor.value) else rows;
    from[..Min(take, |from|)]
  }

  /** The page of `take` rows after the cursor, and whether there is more. */
  function PageAfter(rows: seq<Row>, cursor: Option<string>, take: nat): Page
    requires take >= 1
  {
    var from := FindMany(rows, cursor, |rows|);
    if |from| <= take then Page(from, None) else Page(from[..take], Some(from[take - 1].id))
  }

  /** One row more than the page is fetched; if it comes, it is popped again and the row before it is the next cursor. */
  method FindAll(rows: seq<Row>, cursor: Option<string>, take: nat) returns (page: Page)
    requires take >= 1
    ensures page == PageAfter(rows, cursor, take)
  {
    var fetched := FindMany(rows, cursor, take + 1);
    RowsAfterShorter(rows, if cursor.Some? then cursor.value else "");
    var hasMore := |fetched| > take;
    var next := if hasMore then Some(fetched[|fetched| - 2].id) else None;
    if hasMore {
      fetched := fetched[..|fetched| - 1];
    }
    return Page(fetched, next);
  }

  lemma {:induction false} RowsAfterShorter(rows: seq<Row>, id: string)
    ensures |RowsAfter(rows, id)| <= |rows|
  {
    if rows != [] {
      RowsAfterShorter(rows[1..], id);
    }
  }

  method FindAllClamped(rows: seq<Row>, cursor: Option<string>, limit: int) returns (page: Page)
    ensures page == PageAfter(rows, cursor, Clamp(limit))
  {
    var take := Min(Max(limit, 1), 100);
    page := FindAll(rows, cursor, take);
  }

  lemma {:induction false} RowsAfterUnknown(rows: seq<Row>, id: string)
    requires forall i :: 0 <= i < |rows| ==> rows[i].id != id
    ensures RowsAfter(rows, id) == []
  {
    if rows != [] {
      assert forall i :: 0 <= i < |rows| - 1 ==> rows[1..][i] == rows[i + 1];
      RowsAfterUnknown(rows[1..], id);
    }
  }

  /** Where a page starts: at the first row without a cursor, else after the cursor's row; a cursor of no row has an empty page. */
  lemma PageAfterExactly(rows: seq<Row>, cursor: Option<string>, take: nat, start: nat)
    requires take >= 1 && ValidIds(rows) && start <= |rows|
    requires if cursor == None || cursor == Some("") then start == 0
             else start >= 1 && rows[start - 1].id == cursor.value
    ensures var page := PageAfter(rows, cursor, take);
            if start + take < |rows| then page == Page(rows[start..start + take], Some(rows[start + take - 1].id))
            else page == Page(rows[start..], None)
  {
    if start > 0 {
      RowsAfterAt(rows, start - 1);
    }
    hide RowsAfter, ValidIds;
    var from := rows[start..];
    assert FindMany(rows, cursor, |rows|) == from;
  }

  lemma PageAfterUnknown(rows: seq<Row>, cursor: string, take: nat)
    requires take >= 1 && cursor != "" && forall i :: 0 <= i < |rows| ==> rows[i].id != cursor
    ensures PageAfter(rows, Some(cursor), take) == Page([], None)
  {
    RowsAfterUnknown(rows, cursor);
  }

  // ---- Following the cursors ----

  /** Page number `k` of a client that follows the cursors, None once a page had no cursor. */
  function Visit(rows: seq<Row>, take: nat, k: nat): Option<Page>
    requires take >= 1
  {
    if k == 0 then Some(PageAfter(rows, None, take))
    else
      var before := Visit(rows, take, k - 1);
      if before.None? || before.value.next.None? then None
      else Some(PageAfter(rows, before.value.next, take))
  }

  function PageCount(n: nat, take: nat): nat
    requires take >= 1
  {
    if n == 0 then 1 else (n - 1) / take + 1
  }

  /** The number of pages is max(1, ceil(n / take)). */
  lemma PageCountIsCeiling(n: nat, take: nat)
    requires take >= 1
    ensures PageCount(n, take) == Max(1, (n + take - 1) / take)
  {
    if n > 0 {
      var q, r := (n - 1) / take, (n - 1) % take;
      assert n + take - 1 == take * (q + 1) + r;
      QuotientIs(n + take - 1, take, q + 1, r);
      assert take * q + r == n - 1;
    } else {
      QuotientIs(take - 1, take, 0, take - 1);
    }
  }

  /** The place of the first row of page `k`. */
  function Start(take: nat, k: nat): nat {
    if k == 0 then 0 else Start(take, k - 1) + take
  }

  lemma {:induction false} StartIs(take: nat, k: nat)
    ensures Start(take, k) == take * k
  {
    if k > 0 {
      StartIs(take, k - 1);
      assert take * k == take * (k - 1) + take;
    }
  }

  /** Page `k` exists exactly while its first row does, page 0 always. */
  lemma PageExists(n: nat, take: nat, k: nat)
    requires take >= 1
    ensures k < PageCount(n, take) <==> k == 0 || Start(take, k) < n
  {
    StartIs(take, k);
    if n > 0 {
      var q, r := (n - 1) / take, (n - 1) % take;
      assert take * q + r == n - 1;
      if k <= q {
        MulMonotone(take, k, q);
      } else {
        MulMonotone(take, q + 1, k);
        assert take * (q + 1) == take * q + take;
      }
    } else {
      assert take * k >= 0;
      MulMonotone(take, 0, k);
    }
  }

  lemma {:induction false} RowsAfterAt(rows: seq<Row>, i: nat)
    requires i < |rows| && ValidIds(rows)
    ensures RowsAfter(rows, rows[i].id) == rows[i + 1..]
  {
    if i > 0 {
      assert ValidIds(rows[1..]) by {
        assert forall k :: 0 <= k < |rows| - 1 ==> rows[1..][k] == rows[k + 1];
      }
      RowsAfterAt(rows[1..], i - 1);
    }
  }

  /** The page that starts at row `start`. */
  function PageAt(rows: seq<Row>, take: nat, start: nat): Page
    requires take >= 1 && start <= |rows|
  {
    if |rows| - start <= take then Page(rows[start..], None)
    else Page(rows[start..start + take], Some(rows[start + take - 1].id))
  }

  lemma PageRows(rows: seq<Row>, take: nat, start: nat)
    requires take >= 1 && start <= |rows|
    ensures PageAt(rows, take, start).rows == rows[start..Min(start + take, |rows|)]
  {
  }

  lemma FirstPage(rows: seq<Row>, take: nat)
    requires take >= 1
    ensures PageAfter(rows, None, take) == PageAt(rows, take, 0)
  {
    assert FindMany(rows, None, |rows|) == rows;
  }

  lemma NextPage(rows: seq<Row>, take: nat, start: nat)
    requires take >= 1 && ValidIds(rows) && start <= |rows| && PageAt(rows, take, start).next.Some?
    ensures PageAfter(rows, PageAt(rows, take, start).next, take) == PageAt(rows, take, start + take)
  {
    PageAfterExactly(rows, PageAt(rows, take, start).next, take, start + take);
    hide PageAfter;
  }

  /** Visited page `k` is the rows from `take * k` on, `take` of them or all that are left. */
  lemma {:induction false} VisitExact(rows: seq<Row>, take: nat, k: nat)
    requires take >= 1 && ValidIds(rows)
    ensures Visit(rows, take, k).Some? <==> k < PageCount(|rows|, take)
    ensures k < PageCount(|rows|, take) ==>
              Start(take, k) <= |rows| && Visit(rows, take, k) == Some(PageAt(rows, take, Start(take, k)))
  {
    hide PageCount, PageAfter;
    PageExists(|rows|, take, k);
    if k == 0 {
      FirstPage(rows, take);
    } else {
      VisitExact(rows, take, k - 1);
      PageExists(|rows|, take, k - 1);
      if k - 1 < PageCount(|rows|, take) {
        if PageAt(rows, take, Start(take, k - 1)).next.Some? {
          NextPage(rows, take, Start(take, k - 1));
        }
      }
    }
  }

  /** The rows of the first `k` pages, page after page. */
  function VisitedRows(rows: seq<Row>, take: nat, k: nat): seq<Row>
    requires take >= 1
  {
    if k == 0 then []
    else
      var page := Visit(rows, take, k - 1);
      VisitedRows(rows, take, k - 1) + if page.Some? then page.value.rows else []
  }

  lemma {:induction false} VisitedPrefix(rows: seq<Row>, take: nat, k: nat)
    requires take >= 1 && ValidIds(rows) && k <= PageCount(|rows|, take)
    ensures VisitedRows(rows, take, k) == rows[..Min(Start(take, k), |rows|)]
  {
    hide Visit, PageCount, PageAt, ValidIds;
    if k > 0 {
      var start := Start(take, k - 1);
      VisitedPrefix(rows, take, k - 1);
      VisitExact(rows, take, k - 1);
      PageRows(rows, take, start);
      assert rows[..start] + rows[start..Min(start + take, |rows|)] == rows[..Min(start + take, |rows|)];
    }
  }

  /**
    Following the cursors from the first page visits every row exactly once, in
    order, on max(1, ceil(n / take)) pages, and then stops.
   */
  lemma VisitsEverything(rows: seq<Row>, take: nat)
    requires take >= 1 && ValidIds(rows)
    ensures var count := Max(1, (|rows| + take - 1) / take);
            && VisitedRows(rows, take, count) == rows
            && (forall k: nat :: Visit(rows, take, k).Some? <==> k < count)
  {
    var count := PageCount(|rows|, take);
    PageCountIsCeiling(|rows|, take);
    PageExists(|rows|, take, count);
    VisitedPrefix(rows, take, count);
    assert rows[..|rows|] == rows;
    forall k: nat ensures Visit(rows, take, k).Some? <==> k < count {
      VisitExact(rows, take, k);
    }
  }
}
