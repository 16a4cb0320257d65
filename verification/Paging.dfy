/** A tab of the Inbox page by page: keyset pagination over rows that may change between the pages. */
module Paging {
  import opened Base
  import opened Notifications

  /** The sort key of the last row of a page. */
  datatype Cursor = Cursor(at: Time, id: Id)

  const DEFAULT_LIMIT := 50
  const MAX_LIMIT := 100

  /** The page size: the one nearest to what was asked for, from 1 to 100; 50 when nothing was. */
  function Limit(asked: Option<int>): (limit: nat)
    ensures 1 <= limit <= 100
    ensures asked.None? ==> limit == 50
    ensures asked.Some? ==>
              if asked.value > 100 then limit == 100 else if asked.value < 1 then limit == 1 else limit == asked.value
  {
    Max(1, Min(asked.GetOr(DEFAULT_LIMIT), MAX_LIMIT))
  }

  function CursorAfter(view: View, n: Notification): Cursor {
    Cursor(SortTime(view, n), n.id)
  }

  /** `(sort, id) < cursor`, descending: the row comes later than the cursor. */
  predicate IsAfter(view: View, cursor: Option<Cursor>, n: Notification) {
    cursor.Some? ==> Precedes(cursor.value.at, cursor.value.id, SortTime(view, n), n.id)
  }

  // ---- One page ----

  ghost function SetAfter(db: Table, workspace: Id, view: View, cursor: Option<Cursor>): (all: set<Notification>)
    ensures DistinctIds(all)
  {
    set n | n in TabSet(db, workspace, view) && IsAfter(view, cursor, n)
  }

  /** The rows of the tab after the cursor, in order. */
  ghost function TabAfter(db: Table, workspace: Id, view: View, cursor: Option<Cursor>): (rows: seq<Notification>)
    ensures Lists(view, rows, SetAfter(db, workspace, view, cursor))
  {
    InOrder(view, SetAfter(db, workspace, view, cursor))
  }

  /** `LIMIT`. */
  function Take<T>(rows: seq<T>, limit: nat): seq<T> {
    rows[..Min(limit, |rows|)]
  }

  ghost function PageOf(db: Table, workspace: Id, view: View, limit: nat, cursor: Option<Cursor>): seq<Notification> {
    Take(TabAfter(db, workspace, view, cursor), limit)
  }

  ghost function NextOf(db: Table, workspace: Id, view: View, limit: nat, cursor: Option<Cursor>): Option<Cursor>
    requires limit >= 1
  {
    var rows := TabAfter(db, workspace, view, cursor);
    if |rows| > limit then Some(CursorAfter(view, rows[limit - 1])) else None
  }

  /** One page from the answer of the query, which is asked for one row more than the page holds. */
  method GetList(ghost db: Table, ghost workspace: Id, view: View, asked: Option<int>, ghost cursor: Option<Cursor>,
                 fetched: seq<Notification>)
    returns (data: seq<Notification>, next: Option<Cursor>)
    requires fetched == Take(TabAfter(db, workspace, view, cursor), Limit(asked) + 1)
    ensures data == PageOf(db, workspace, view, Limit(asked), cursor)
    ensures next == NextOf(db, workspace, view, Limit(asked), cursor)
    ensures |data| == Min(Limit(asked), |TabAfter(db, workspace, view, cursor)|)
    ensures next.Some? <==> |TabAfter(db, workspace, view, cursor)| > Limit(asked)
  {
    var limit := Limit(asked);
    data, next := fetched, None;
    if |data| > limit {
      data := data[..limit];
      next := Some(CursorAfter(view, data[|data| - 1]));
    }
  }

  /** The rows after the last one of a page are those after its cursor. */
  lemma AfterPage(db: Table, workspace: Id, view: View, cursor: Option<Cursor>, limit: nat, n: Notification)
    requires 1 <= limit < |TabAfter(db, workspace, view, cursor)|
    ensures var rows := TabAfter(db, workspace, view, cursor);
            n in rows[limit..] <==> n in SetAfter(db, workspace, view, Some(CursorAfter(view, rows[limit - 1])))
  {
    var rows := TabAfter(db, workspace, view, cursor);
    var last := rows[limit - 1];
    assert last in rows;
    if n in rows {
      var i := IndexOf(rows, n);
      if i >= limit {
        assert n == rows[limit..][i - limit] && ComesBefore(view, last, n);
      } else {
        assert i < limit - 1 ==> ComesBefore(view, n, last);
        assert n !in rows[limit..] by {
          assert forall j | limit <= j < |rows| :: ComesBefore(view, n, rows[j]);
        }
      }
    } else {
      assert forall j | limit <= j < |rows| :: rows[j] in rows;
    }
  }

  /** The page and what its cursor leaves for later are the rows after the cursor it was asked with. */
  lemma PageSplits(db: Table, workspace: Id, view: View, limit: nat, cursor: Option<Cursor>)
    requires limit >= 1
    ensures var next := NextOf(db, workspace, view, limit, cursor);
            TabAfter(db, workspace, view, cursor)
            == PageOf(db, workspace, view, limit, cursor)
             + if next.Some? then TabAfter(db, workspace, view, next) else []
  {
    var rows := TabAfter(db, workspace, view, cursor);
    var next := NextOf(db, workspace, view, limit, cursor);
    if next.Some? {
      var all := SetAfter(db, workspace, view, next);
      forall n ensures n in rows[limit..] <==> n in all {
        AfterPage(db, workspace, view, cursor, limit, n);
      }
      ListsUnique(view, rows[limit..], TabAfter(db, workspace, view, next), all);
    }
  }

  // ---- Walking the pages ----

  /** One request for a page: the rows at that moment and the size asked for. */
  datatype Visit = Visit(db: Table, asked: Option<int>)

  /** The rows returned by following `nextCursor` from `cursor`. */
  ghost function Walk(workspace: Id, view: View, visits: seq<Visit>, cursor: Option<Cursor>): seq<Notification> {
    if visits == [] then []
    else
      var limit := Limit(visits[0].asked);
      var next := NextOf(visits[0].db, workspace, view, limit, cursor);
      PageOf(visits[0].db, workspace, view, limit, cursor)
      + if next.Some? then Walk(workspace, view, visits[1..], next) else []
  }

  /** The last visit, and no other, answered that there is no further page. */
  ghost predicate Ended(workspace: Id, view: View, visits: seq<Visit>, cursor: Option<Cursor>) {
    && visits != []
    && var next := NextOf(visits[0].db, workspace, view, Limit(visits[0].asked), cursor);
       if next.Some? then Ended(workspace, view, visits[1..], next) else |visits| == 1
  }

  ghost predicate Unchanging(workspace: Id, view: View, visits: seq<Visit>, db: Table) {
    forall v | v in visits :: TabSet(v.db, workspace, view) == TabSet(db, workspace, view)
  }

  lemma SameTabAfter(db: Table, other: Table, workspace: Id, view: View, cursor: Option<Cursor>)
    requires TabSet(db, workspace, view) == TabSet(other, workspace, view)
    ensures TabAfter(db, workspace, view, cursor) == TabAfter(other, workspace, view, cursor)
  {
    assert SetAfter(db, workspace, view, cursor) == SetAfter(other, workspace, view, cursor);
    ListsUnique(view, TabAfter(db, workspace, view, cursor), TabAfter(other, workspace, view, cursor),
                SetAfter(db, workspace, view, cursor));
  }

  lemma {:induction false} WalkFrom(db: Table, workspace: Id, view: View, visits: seq<Visit>, cursor: Option<Cursor>)
    requires Unchanging(workspace, view, visits, db) && Ended(workspace, view, visits, cursor)
    ensures Walk(workspace, view, visits, cursor) == TabAfter(db, workspace, view, cursor)
  {
    var here := visits[0].db;
    var limit := Limit(visits[0].asked);
    var next := NextOf(here, workspace, view, limit, cursor);
    assert visits[0] in visits;
    SameTabAfter(here, db, workspace, view, cursor);
    PageSplits(here, workspace, view, limit, cursor);
    if next.Some? {
      SameTabAfter(here, db, workspace, view, next);
      WalkFrom(db, workspace, view, visits[1..], next);
    }
  }

  /** Following `nextCursor` from the first page of a tab that does not change returns the tab. */
  lemma WalkIsTheTab(db: Table, workspace: Id, view: View, visits: seq<Visit>)
    requires Unchanging(workspace, view, visits, db) && Ended(workspace, view, visits, None)
    ensures Walk(workspace, view, visits, None) == Tab(db, workspace, view)
  {
    WalkFrom(db, workspace, view, visits, None);
    assert SetAfter(db, workspace, view, None) == TabSet(db, workspace, view);
    TabIs(db, workspace, view, TabAfter(db, workspace, view, None));
  }

  lemma PageHoldsARow(db: Table, workspace: Id, view: View, limit: nat, cursor: Option<Cursor>)
    requires limit >= 1
    ensures var next := NextOf(db, workspace, view, limit, cursor);
            next.Some? ==> |TabAfter(db, workspace, view, next)| < |TabAfter(db, workspace, view, cursor)|
  {
    PageSplits(db, workspace, view, limit, cursor);
  }

  lemma EndedAtOnce(workspace: Id, view: View, visits: seq<Visit>, cursor: Option<Cursor>)
    requires visits != [] && NextOf(visits[0].db, workspace, view, Limit(visits[0].asked), cursor).None?
    ensures Ended(workspace, view, visits[..1], cursor)
  {
  }

  lemma UnchangingRest(workspace: Id, view: View, visits: seq<Visit>, db: Table)
    requires Unchanging(workspace, view, visits, db) && visits != []
    ensures Unchanging(workspace, view, visits[1..], db)
    ensures TabSet(visits[0].db, workspace, view) == TabSet(db, workspace, view)
  {
    assert visits[0] in visits;
    assert forall v | v in visits[1..] :: v in visits;
  }

  lemma EndedOneMore(workspace: Id, view: View, visits: seq<Visit>, cursor: Option<Cursor>, rest: nat)
    requires 1 <= rest < |visits|
    requires var next := NextOf(visits[0].db, workspace, view, Limit(visits[0].asked), cursor);
             next.Some? && Ended(workspace, view, visits[1..][..rest], next)
    ensures Ended(workspace, view, visits[..rest + 1], cursor)
  {
    assert visits[..rest + 1][1..] == visits[1..][..rest];
  }

  /** Each page of an unchanging tab holds a row, so as many visits as there are rows reach the end. */
  lemma {:induction false} WalkEnds(db: Table, workspace: Id, view: View, visits: seq<Visit>, cursor: Option<Cursor>)
    returns (pages: nat)
    requires Unchanging(workspace, view, visits, db)
    requires |visits| >= 1 && |visits| >= |TabAfter(db, workspace, view, cursor)|
    ensures 1 <= pages <= |visits| && Ended(workspace, view, visits[..pages], cursor)
    decreases |visits|
  {
    var here := visits[0].db;
    var limit := Limit(visits[0].asked);
    var next := NextOf(here, workspace, view, limit, cursor);
    UnchangingRest(workspace, view, visits, db);
    SameTabAfter(here, db, workspace, view, cursor);
    if next.Some? {
      PageHoldsARow(here, workspace, view, limit, cursor);
      SameTabAfter(here, db, workspace, view, next);
      var rest := WalkEnds(db, workspace, view, visits[1..], next);
      EndedOneMore(workspace, view, visits, cursor, rest);
      pages := rest + 1;
    } else {
      EndedAtOnce(workspace, view, visits, cursor);
      pages := 1;
    }
  }

  // ---- Rows that change between the pages ----

  /** How often the row is among `rows`. */
  ghost function Times(rows: seq<Notification>, id: Id): nat {
    if rows == [] then 0 else (if rows[0].id == id then 1 else 0) + Times(rows[1..], id)
  }

  lemma {:induction false} TimesConcat(a: seq<Notification>, b: seq<Notification>, id: Id)
    ensures Times(a + b, id) == Times(a, id) + Times(b, id)
  {
    if a == [] {
      assert a + b == b;
    } else {
      assert (a + b)[1..] == a[1..] + b;
      TimesConcat(a[1..], b, id);
    }
  }

  lemma {:induction false} TimesSorted(view: View, rows: seq<Notification>, id: Id)
    requires Sorted(view, rows) && forall i, j | 0 <= i < j < |rows| :: rows[i].id != rows[j].id
    ensures Times(rows, id) == if exists n :: n in rows && n.id == id then 1 else 0
  {
    if rows != [] {
      TimesSorted(view, rows[1..], id);
      assert forall n :: n in rows <==> n == rows[0] || n in rows[1..];
      if rows[0].id == id {
        assert forall n | n in rows[1..] :: n.id != id;
        assert rows[0] in rows;
      }
    }
  }

  lemma ListedIdsDiffer(view: View, rows: seq<Notification>, all: set<Notification>)
    requires Lists(view, rows, all) && DistinctIds(all)
    ensures forall i, j | 0 <= i < j < |rows| :: rows[i].id != rows[j].id
  {
    forall i, j | 0 <= i < j < |rows| ensures rows[i].id != rows[j].id {
      assert rows[i] in rows && rows[j] in rows;
      assert ComesBefore(view, rows[i], rows[j]);
    }
  }

  /** The row `id` is in the tab at every visit, always with the sort date `at`. */
  ghost predicate Steady(workspace: Id, view: View, visits: seq<Visit>, id: Id, at: Time) {
    forall v | v in visits ::
      id in v.db && v.db[id].id == id && InTab(v.db, workspace, view, v.db[id]) && SortTime(view, v.db[id]) == at
  }

  ghost predicate KeyAfter(cursor: Option<Cursor>, id: Id, at: Time) {
    cursor.Some? ==> Precedes(cursor.value.at, cursor.value.id, at, id)
  }

  lemma TimesInPage(db: Table, workspace: Id, view: View, limit: nat, cursor: Option<Cursor>, id: Id)
    requires limit >= 1
    requires id in db && db[id].id == id && InTab(db, workspace, view, db[id])
    ensures var next := NextOf(db, workspace, view, limit, cursor);
            var at := SortTime(view, db[id]);
            Times(PageOf(db, workspace, view, limit, cursor), id)
            == if KeyAfter(cursor, id, at) && !(next.Some? && KeyAfter(next, id, at)) then 1 else 0
    ensures var next := NextOf(db, workspace, view, limit, cursor);
            var at := SortTime(view, db[id]);
            next.Some? && KeyAfter(next, id, at) ==> KeyAfter(cursor, id, at)
  {
    var next := NextOf(db, workspace, view, limit, cursor);
    var rows := TabAfter(db, workspace, view, cursor);
    TimesInTabAfter(db, workspace, view, cursor, id);
    PageSplits(db, workspace, view, limit, cursor);
    if next.Some? {
      TimesInTabAfter(db, workspace, view, next, id);
      TimesConcat(PageOf(db, workspace, view, limit, cursor), TabAfter(db, workspace, view, next), id);
    } else {
      assert PageOf(db, workspace, view, limit, cursor) == rows;
    }
  }

  lemma TimesInTabAfter(db: Table, workspace: Id, view: View, cursor: Option<Cursor>, id: Id)
    requires id in db && db[id].id == id && InTab(db, workspace, view, db[id])
    ensures Times(TabAfter(db, workspace, view, cursor), id)
         == if KeyAfter(cursor, id, SortTime(view, db[id])) then 1 else 0
  {
    var rows := TabAfter(db, workspace, view, cursor);
    var all := SetAfter(db, workspace, view, cursor);
    ListedIdsDiffer(view, rows, all);
    TimesSorted(view, rows, id);
    assert db[id] in TabSet(db, workspace, view);
    assert forall n | n in rows && n.id == id :: n in all && n == db[id];
    if KeyAfter(cursor, id, SortTime(view, db[id])) {
      assert db[id] in rows;
    }
  }

  lemma {:induction false} WalkTimes(workspace: Id, view: View, visits: seq<Visit>, cursor: Option<Cursor>,
                                     id: Id, at: Time)
    requires Ended(workspace, view, visits, cursor) && Steady(workspace, view, visits, id, at)
    ensures Times(Walk(workspace, view, visits, cursor), id) == if KeyAfter(cursor, id, at) then 1 else 0
  {
    var limit := Limit(visits[0].asked);
    var next := NextOf(visits[0].db, workspace, view, limit, cursor);
    var page := PageOf(visits[0].db, workspace, view, limit, cursor);
    assert visits[0] in visits;
    TimesInPage(visits[0].db, workspace, view, limit, cursor, id);
    if next.Some? {
      WalkTimes(workspace, view, visits[1..], next, id, at);
      TimesConcat(page, Walk(workspace, view, visits[1..], next), id);
    } else {
      TimesConcat(page, [], id);
    }
  }

  /** Whatever happens to the other rows between the pages, a walk that ends returns exactly once each row that
      stays in the tab with its sort date. */
  lemma SteadyRowOnce(workspace: Id, view: View, visits: seq<Visit>, id: Id, at: Time)
    requires Ended(workspace, view, visits, None) && Steady(workspace, view, visits, id, at)
    ensures Times(Walk(workspace, view, visits, None), id) == 1
  {
    WalkTimes(workspace, view, visits, None, id, at);
  }
}
