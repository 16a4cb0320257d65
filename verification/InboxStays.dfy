/** What pushed updates and patches leave in its place: every row of every list and pinned group, Unread included, but
    for those that are to move. */
module InboxStays {
  import opened Base
  import opened Notifications
  import opened Inbox
  import opened InboxFlight
  import opened InboxPrefix
  import opened InboxSync

  /** The rows of other notifications, in their order. */
  ghost function Except(rows: seq<Notification>, ids: set<Id>): (r: seq<Notification>)
    ensures forall n :: n in r <==> n in rows && n.id !in ids
  {
    if rows == [] then []
    else if rows[0].id in ids then Except(rows[1..], ids)
    else [rows[0]] + Except(rows[1..], ids)
  }

  lemma {:induction false} ExceptNone(rows: seq<Notification>, ids: set<Id>)
    requires forall n | n in rows :: n.id !in ids
    ensures Except(rows, ids) == rows
  {
    if rows != [] { ExceptNone(rows[1..], ids); }
  }

  lemma {:induction false} ExceptWithout(rows: seq<Notification>, id: Id, ids: set<Id>)
    requires id in ids
    ensures Except(Without(rows, id), ids) == Except(rows, ids)
  {
    if rows != [] { ExceptWithout(rows[1..], id, ids); }
  }

  lemma {:induction false} ExceptInsert(view: View, rows: seq<Notification>, n: Notification, ids: set<Id>)
    requires n.id in ids
    ensures Except(Insert(view, rows, n), ids) == Except(rows, ids)
  {
    if rows != [] && !ComesBefore(view, n, rows[0]) { ExceptInsert(view, rows[1..], n, ids); }
  }

  lemma ExceptPlace(list: List, n: Notification, views: set<View>, ids: set<Id>)
    requires n.id in ids
    ensures Except(Rows(PlaceInList(list, n, views)), ids) == Except(Rows(list), ids)
  {
    PlaceJoins(list.view, list.pages, n);
    ExceptWithout(Rows(list), n.id, ids);
    ExceptInsert(list.view, Without(Rows(list), n.id), n, ids);
  }

  lemma {:induction false} SortedStays(rows: seq<Notification>)
    requires Sorted(All, rows)
    ensures SortPinned(rows) == rows
  {
    if rows != [] {
      forall i, j | 0 <= i < j < |rows[1..]| ensures ComesBefore(All, rows[1..][i], rows[1..][j]) {
        assert rows[1..][i] == rows[i + 1] && rows[1..][j] == rows[j + 1];
      }
      SortedStays(rows[1..]);
      if |rows| > 1 { assert ComesBefore(All, rows[0], rows[1]); }
    }
  }

  lemma ExceptGroup(group: Group, n: Notification, ids: set<Id>)
    requires n.id in ids && Sorted(All, group.rows)
    ensures Except(PlaceInGroup(group, n).rows, ids) == Except(group.rows, ids)
    ensures Sorted(All, PlaceInGroup(group, n).rows)
  {
    var rest := Without(group.rows, n.id);
    WithoutSorted(All, group.rows, n.id);
    SortedStays(rest);
    assert ([n] + rest)[1..] == rest;
    InsertSorted(All, rest, n);
    ExceptWithout(group.rows, n.id, ids);
    ExceptInsert(All, rest, n, ids);
  }

  lemma MapCons(first: Notification, rest: seq<Notification>, f: Notification -> Notification)
    ensures MapRows([first] + rest, f) == [f(first)] + MapRows(rest, f)
  {
  }

  lemma ExceptCons(first: Notification, rest: seq<Notification>, ids: set<Id>)
    ensures Except([first] + rest, ids) == (if first.id in ids then [] else [first]) + Except(rest, ids)
  {
    assert ([first] + rest)[1..] == rest;
  }

  lemma {:induction false} ExceptMap(rows: seq<Notification>, f: Notification -> Notification, ids: set<Id>)
    requires forall n :: f(n).id == n.id
    ensures Except(MapRows(rows, f), ids) == MapRows(Except(rows, ids), f)
  {
    if rows != [] {
      var first, rest := rows[0], rows[1..];
      assert rows == [first] + rest;
      ExceptMap(rest, f, ids);
      MapCons(first, rest, f);
      ExceptCons(first, rest, ids);
      ExceptCons(f(first), MapRows(rest, f), ids);
      MapCons(first, Except(rest, ids), f);
    }
  }

  // ---- A pushed update ----

  /** A copy of the notification is cached, archived or not as it is now. */
  ghost predicate IsShown(c: Cache, n: Notification) {
    exists m :: m in Copies(c) && m.id == n.id && m.archivedAt == n.archivedAt
  }

  /** The notifications that are taken to another place: not held, and new or archived or brought back. */
  ghost function MovedIds(c: Cache, upserted: seq<Notification>): set<Id> {
    set n | n in upserted && n.id !in c.inFlight && !IsShown(c, n) :: n.id
  }

  /** The row as the update leaves it where it is: as pushed, unless it is held, and read if the read-all reads it. */
  ghost function AsPushed(c: Cache, update: Update, m: Notification): Notification {
    if m.id in c.inFlight then m
    else
      var n := if Among(update.upserted, m.id) then PushedOf(update.upserted, m.id) else m;
      if update.readAll.None? then n
      else
        var rule := update.readAll.value;
        if (n.workspace.None? || n.workspace == Some(rule.workspace))
           && n.readAt.None? && n.archivedAt.None? && n.updatedAt <= rule.before
        then n.(readAt := Some(rule.readAt)) else n
  }

  ghost function PushedOf(upserted: seq<Notification>, id: Id): (n: Notification)
    requires Among(upserted, id)
    ensures n in upserted && n.id == id
  {
    var n :| n in upserted && n.id == id;
    n
  }

  /** Up to the rows of `ids`, the rows are the old ones in their order, each as the update leaves it. */
  ghost predicate StayAsPushed(c: Cache, update: Update, was: seq<Notification>, now: seq<Notification>, ids: set<Id>) {
    var stay, stayed := Except(was, ids), Except(now, ids);
    |stayed| == |stay| && forall j | 0 <= j < |stay| :: stayed[j] == AsPushed(c, update, stay[j])
  }

  ghost predicate GroupsSorted(c: Cache) {
    forall i | 0 <= i < |c.pinned| :: Sorted(All, c.pinned[i].rows)
  }

  /** The same lists with the same cursors, and the same groups; up to `ids` with the same rows. */
  ghost predicate SameUpTo(c: Cache, d: Cache, ids: set<Id>) {
    && |d.lists| == |c.lists| && |d.pinned| == |c.pinned| && d.inFlight == c.inFlight
    && (forall i | 0 <= i < |c.lists| ::
          && d.lists[i].workspace == c.lists[i].workspace && d.lists[i].view == c.lists[i].view
          && SameCursors(c.lists[i].pages, d.lists[i].pages)
          && Except(Rows(d.lists[i]), ids) == Except(Rows(c.lists[i]), ids))
    && (forall i | 0 <= i < |c.pinned| ::
          d.pinned[i].view == c.pinned[i].view && Except(d.pinned[i].rows, ids) == Except(c.pinned[i].rows, ids))
  }

  lemma PlacedUpTo(c: Cache, n: Notification, ids: set<Id>)
    requires n.id in ids && GroupsSorted(c)
    ensures var d := PlaceInLists(PlaceInPinned(c, n), n, VIEWS);
            SameUpTo(c, d, ids) && GroupsSorted(d)
  {
    var d := PlaceInLists(PlaceInPinned(c, n), n, VIEWS);
    forall i | 0 <= i < |c.lists|
      ensures SameCursors(c.lists[i].pages, d.lists[i].pages)
      ensures Except(Rows(d.lists[i]), ids) == Except(Rows(c.lists[i]), ids)
    {
      PlaceJoins(c.lists[i].view, c.lists[i].pages, n);
      ExceptPlace(c.lists[i], n, VIEWS, ids);
    }
    forall i | 0 <= i < |c.pinned|
      ensures Except(d.pinned[i].rows, ids) == Except(c.pinned[i].rows, ids) && Sorted(All, d.pinned[i].rows)
    {
      ExceptGroup(c.pinned[i], n, ids);
    }
  }

  /** Upserting other notifications leaves the copies of this one. */
  lemma {:induction false} UpsertAllSpares(c: Cache, upserted: seq<Notification>, id: Id)
    requires !Among(upserted, id)
    ensures SameInCache(c, UpsertAll(c, upserted).cache, id)
  {
    if upserted != [] {
      var rest, n := upserted[..|upserted| - 1], upserted[|upserted| - 1];
      assert upserted == rest + [n] && n in upserted;
      assert forall m | m in rest :: m in upserted;
      UpsertAllSpares(c, rest, id);
      var p := UpsertAll(c, rest);
      PlaceSame(p.cache, n, id);
      SameTransitive(c, p.cache, PlaceInLists(PlaceInPinned(p.cache, n), n, VIEWS), id);
    }
  }

  lemma SameAreCopies(c: Cache, d: Cache, m: Notification)
    requires SameInCache(c, d, m.id) && m in Copies(c)
    ensures m in Copies(d)
  {
    InListCopies(c.lists, m);
    InGroupCopies(c.pinned, m);
    InListCopies(d.lists, m);
    InGroupCopies(d.pinned, m);
    if m in ListCopies(c.lists) {
      var i :| 0 <= i < |c.lists| && m in Rows(c.lists[i]);
      assert SameCopies(Rows(c.lists[i]), Rows(d.lists[i]), m.id) && m in multiset(Rows(c.lists[i]));
      assert m in multiset(Rows(d.lists[i]));
    } else {
      var i :| 0 <= i < |c.pinned| && m in c.pinned[i].rows;
      assert SameCopies(c.pinned[i].rows, d.pinned[i].rows, m.id) && m in multiset(c.pinned[i].rows);
      assert m in multiset(d.pinned[i].rows);
    }
  }

  /** All copies of a notification are archived or not alike. */
  ghost predicate Alike(c: Cache) {
    forall m, n | m in Copies(c) && n in Copies(c) && m.id == n.id :: m.archivedAt == n.archivedAt
  }

  lemma AgreesAlike(db: Table, c: Cache)
    requires Agrees(db, c)
    ensures Alike(c)
  {
    forall m | m in Copies(c) ensures IsRow(db, m) {
      InListCopies(c.lists, m);
      InGroupCopies(c.pinned, m);
      if m in ListCopies(c.lists) {
        var i :| 0 <= i < |c.lists| && m in Rows(c.lists[i]);
        assert ListAgrees(db, c.lists[i]);
      } else {
        var i :| 0 <= i < |c.pinned| && m in c.pinned[i].rows;
        assert GroupAgrees(db, c.pinned[i]);
      }
    }
  }

  lemma ShownIsCached(c: Cache, d: Cache, n: Notification)
    requires Alike(c) && SameInCache(c, d, n.id) && SameInCache(d, c, n.id)
    ensures IsShown(c, n) <==> Cached(d, n.id).Some? && Cached(d, n.id).value.archivedAt == n.archivedAt
  {
    if IsShown(c, n) {
      var m :| m in Copies(c) && m.id == n.id && m.archivedAt == n.archivedAt;
      SameAreCopies(c, d, m);
      SameAreCopies(d, c, Cached(d, n.id).value);
    } else if Cached(d, n.id).Some? {
      SameAreCopies(d, c, Cached(d, n.id).value);
    }
  }

  /** After some of the upserted rows: nothing but those taken elsewhere has moved, and the others wait. */
  ghost predicate WaitOrMoved(c: Cache, upserted: seq<Notification>, p: Progress, ids: set<Id>) {
    && SameUpTo(c, p.cache, ids) && GroupsSorted(p.cache) && DifferentIds(p.inPlace)
    && (ids == {} ==> p.cache.lists == c.lists && p.cache.pinned == c.pinned)
    && (forall n :: n in p.inPlace <==> n in upserted && n.id !in c.inFlight && n.id !in ids)
  }

  lemma NextMoves(c: Cache, rest: seq<Notification>, p: Progress, n: Notification, ids: set<Id>)
    requires WaitOrMoved(c, rest, p, ids) && n.id in ids
    ensures WaitOrMoved(c, rest + [n], p.(cache := PlaceInLists(PlaceInPinned(p.cache, n), n, VIEWS)), ids)
  {
    PlacedUpTo(p.cache, n, ids);
  }

  lemma NextWaits(c: Cache, rest: seq<Notification>, p: Progress, n: Notification, ids: set<Id>)
    requires WaitOrMoved(c, rest, p, ids) && !Among(rest, n.id) && n.id !in ids && n.id !in c.inFlight
    ensures WaitOrMoved(c, rest + [n], p.(inPlace := p.inPlace + [n]), ids)
  {
  }

  lemma NextIsHeld(c: Cache, rest: seq<Notification>, p: Progress, n: Notification, ids: set<Id>)
    requires WaitOrMoved(c, rest, p, ids) && n.id in c.inFlight
    ensures WaitOrMoved(c, rest + [n], p.(cache := p.cache.(behind := true)), ids)
  {
  }

  lemma NextWaitsOrMoves(c: Cache, rest: seq<Notification>, n: Notification, ids: set<Id>)
    requires Alike(c) && WaitOrMoved(c, rest, UpsertAll(c, rest), ids) && !Among(rest, n.id)
    requires n.id !in c.inFlight ==> (n.id in ids <==> !IsShown(c, n))
    ensures WaitOrMoved(c, rest + [n], Upsert(UpsertAll(c, rest), n), ids)
  {
    var p := UpsertAll(c, rest);
    UpsertAllSpares(c, rest, n.id);
    ShownIsCached(c, p.cache, n);
    if n.id in c.inFlight {
      NextIsHeld(c, rest, p, n, ids);
    } else if n.id in ids {
      NextMoves(c, rest, p, n, ids);
    } else {
      NextWaits(c, rest, p, n, ids);
    }
  }

  lemma {:induction false} UpsertAllWaitsOrMoves(c: Cache, upserted: seq<Notification>, ids: set<Id>)
    requires Alike(c) && GroupsSorted(c) && DifferentIds(upserted)
    requires forall n | n in upserted && n.id !in c.inFlight :: n.id in ids <==> !IsShown(c, n)
    ensures WaitOrMoved(c, upserted, UpsertAll(c, upserted), ids)
  {
    if upserted != [] {
      var rest, n := upserted[..|upserted| - 1], upserted[|upserted| - 1];
      assert upserted == rest + [n];
      assert forall m | m in rest :: m in upserted;
      UpsertAllWaitsOrMoves(c, rest, ids);
      assert !Among(rest, n.id);
      NextWaitsOrMoves(c, rest, n, ids);
    }
  }

  lemma WaitingIsPushed(c: Cache, upserted: seq<Notification>, p: Progress, ids: set<Id>, m: Notification)
    requires WaitOrMoved(c, upserted, p, ids) && DifferentIds(upserted) && m.id !in ids
    ensures LastOf(p.inPlace, m.id).GetOr(m)
         == if m.id !in c.inFlight && Among(upserted, m.id) then PushedOf(upserted, m.id) else m
  {
    LastOfHasId(p.inPlace, m.id);
    if m.id !in c.inFlight && Among(upserted, m.id) {
      LastOfIs(p.inPlace, PushedOf(upserted, m.id));
    }
    if LastOf(p.inPlace, m.id).Some? && Among(upserted, m.id) {
      var a, b := LastOf(p.inPlace, m.id).value, PushedOf(upserted, m.id);
      assert upserted[IndexOf(upserted, a)] == a && upserted[IndexOf(upserted, b)] == b;
    }
  }

  ghost predicate KeepsIds(f: Notification -> Notification) {
    forall n :: f(n).id == n.id
  }

  lemma MapStays(c: Cache, update: Update, was: seq<Notification>, rows: seq<Notification>,
                 f: Notification -> Notification, ids: set<Id>)
    requires Except(rows, ids) == Except(was, ids) && KeepsIds(f)
    requires forall m: Notification | m.id !in ids :: f(m) == AsPushed(c, update, m)
    ensures StayAsPushed(c, update, was, MapRows(rows, f), ids)
  {
    ExceptMap(rows, f, ids);
    forall j | 0 <= j < |Except(was, ids)| ensures Except(was, ids)[j].id !in ids {
      assert Except(was, ids)[j] in Except(was, ids);
    }
  }

  /** Every row of every list and group is mapped where it is. */
  ghost predicate MapsTo(c: Cache, d: Cache, f: Notification -> Notification) {
    && |d.lists| == |c.lists| && |d.pinned| == |c.pinned|
    && (forall i | 0 <= i < |c.lists| :: ListMapsTo(c.lists[i], d.lists[i], f))
    && (forall i | 0 <= i < |c.pinned| :: d.pinned[i] == c.pinned[i].(rows := MapRows(c.pinned[i].rows, f)))
  }

  ghost predicate ListMapsTo(a: List, b: List, f: Notification -> Notification) {
    && b.workspace == a.workspace && b.view == a.view && SameCursors(a.pages, b.pages)
    && Rows(b) == MapRows(Rows(a), f)
    && forall k | 0 <= k < |a.pages| :: |b.pages[k].rows| == |a.pages[k].rows|
  }

  lemma {:induction false} MapPagesFit(pages: seq<Part>, f: Notification -> Notification)
    ensures |MapPages(pages, f)| == |pages|
    ensures forall k | 0 <= k < |pages| :: |MapPages(pages, f)[k].rows| == |pages[k].rows|
  {
    if pages != [] { MapPagesFit(pages[1..], f); }
  }

  lemma MapCopiesMaps(c: Cache, f: Notification -> Notification)
    ensures MapsTo(c, MapCopies(c, f), f)
  {
    forall i | 0 <= i < |c.lists| ensures ListMapsTo(c.lists[i], MapList(c.lists[i], f), f) {
      MapJoins(c.lists[i].pages, f);
      MapPagesFit(c.lists[i].pages, f);
    }
  }

  lemma MapsTwice(c: Cache, d: Cache, e: Cache, f: Notification -> Notification, g: Notification -> Notification,
                  h: Notification -> Notification)
    requires MapsTo(c, d, f) && MapsTo(d, e, g) && forall n :: h(n) == g(f(n))
    ensures MapsTo(c, e, h)
  {
    forall i | 0 <= i < |c.lists| ensures ListMapsTo(c.lists[i], e.lists[i], h) {
      assert ListMapsTo(c.lists[i], d.lists[i], f) && ListMapsTo(d.lists[i], e.lists[i], g);
    }
    forall i | 0 <= i < |c.pinned| ensures e.pinned[i] == c.pinned[i].(rows := MapRows(c.pinned[i].rows, h)) {
      assert d.pinned[i] == c.pinned[i].(rows := MapRows(c.pinned[i].rows, f));
      assert MapRows(d.pinned[i].rows, g) == MapRows(c.pinned[i].rows, h);
    }
  }

  lemma MapsAs(c: Cache, d: Cache, f: Notification -> Notification, h: Notification -> Notification)
    requires MapsTo(c, d, f) && forall n :: h(n) == f(n)
    ensures MapsTo(c, d, h)
  {
    forall i | 0 <= i < |c.lists| ensures ListMapsTo(c.lists[i], d.lists[i], h) {
      assert ListMapsTo(c.lists[i], d.lists[i], f);
    }
  }

  /** What a pushed update does to a row that stays, once all were met. */
  function PatchedRow(inPlace: seq<Notification>, inFlight: map<Id, nat>, readAll: Option<ReadAllUpdate>,
                      n: Notification): Notification {
    var replaced := LastOf(inPlace, n.id).GetOr(n);
    if readAll.Some? then ReadAllOne(inFlight, readAll.value, replaced) else replaced
  }

  function Patched(inPlace: seq<Notification>, c: Cache, update: Update): Notification -> Notification {
    (n: Notification) => PatchedRow(inPlace, c.inFlight, update.readAll, n)
  }

  lemma ReceiveMaps(c: Cache, update: Update)
    ensures var p := UpsertAll(c, update.upserted);
            MapsTo(p.cache, Receive(c, update), Patched(p.inPlace, c, update))
  {
    var p := UpsertAll(c, update.upserted);
    var f := (n: Notification) => LastOf(p.inPlace, n.id).GetOr(n);
    var replaced := ReplaceInPlace(p.cache, p.inPlace);
    MapCopiesMaps(p.cache, f);
    if update.readAll.Some? {
      UpsertAllFlight(c, update.upserted);
      var g := (n: Notification) => ReadAllOne(c.inFlight, update.readAll.value, n);
      MapCopiesMaps(replaced, g);
      MapsTwice(p.cache, replaced, ReadAllInPlace(replaced, update.readAll.value), f, g,
                Patched(p.inPlace, c, update));
    } else {
      MapsAs(p.cache, replaced, f, Patched(p.inPlace, c, update));
    }
  }

  lemma PatchedOne(c: Cache, update: Update, p: Progress, ids: set<Id>, m: Notification)
    requires DifferentIds(update.upserted) && WaitOrMoved(c, update.upserted, p, ids) && m.id !in ids
    ensures PatchedRow(p.inPlace, c.inFlight, update.readAll, m) == AsPushed(c, update, m)
  {
    WaitingIsPushed(c, update.upserted, p, ids, m);
  }

  lemma PatchedIsPushed(c: Cache, update: Update, p: Progress, ids: set<Id>)
    requires DifferentIds(update.upserted) && WaitOrMoved(c, update.upserted, p, ids)
    ensures KeepsIds(Patched(p.inPlace, c, update))
    ensures forall m: Notification | m.id !in ids :: Patched(p.inPlace, c, update)(m) == AsPushed(c, update, m)
  {
    forall n ensures PatchedRow(p.inPlace, c.inFlight, update.readAll, n).id == n.id { LastOfHasId(p.inPlace, n.id); }
    forall m: Notification | m.id !in ids
      ensures PatchedRow(p.inPlace, c.inFlight, update.readAll, m) == AsPushed(c, update, m)
    {
      PatchedOne(c, update, p, ids, m);
    }
  }

  /** Whatever an update pushes: but for the notifications that are new, or archived or brought back, and not held,
      every list, Unread included, and every pinned group has the same rows in the same order, each as pushed. When
      there is none of these, every page has as many rows as before. */
  lemma OthersStay(db: Table, c: Cache, update: Update)
    requires Agrees(db, c) && GroupsSorted(c) && DifferentIds(update.upserted)
    ensures var d := Receive(c, update);
            var ids := MovedIds(c, update.upserted);
            && |d.lists| == |c.lists| && |d.pinned| == |c.pinned|
            && (forall i | 0 <= i < |c.lists| ::
                  && d.lists[i].workspace == c.lists[i].workspace && d.lists[i].view == c.lists[i].view
                  && SameCursors(c.lists[i].pages, d.lists[i].pages)
                  && StayAsPushed(c, update, Rows(c.lists[i]), Rows(d.lists[i]), ids)
                  && (ids == {} ==> forall k | 0 <= k < |c.lists[i].pages| ::
                        |d.lists[i].pages[k].rows| == |c.lists[i].pages[k].rows|))
            && (forall i | 0 <= i < |c.pinned| ::
                  && d.pinned[i].view == c.pinned[i].view
                  && StayAsPushed(c, update, c.pinned[i].rows, d.pinned[i].rows, ids))
  {
    var p, d := UpsertAll(c, update.upserted), Receive(c, update);
    var ids, f := MovedIds(c, update.upserted), Patched(p.inPlace, c, update);
    AgreesAlike(db, c);
    MovedAreDifferent(c, update.upserted);
    UpsertAllWaitsOrMoves(c, update.upserted, ids);
    ReceiveMaps(c, update);
    PatchedIsPushed(c, update, p, ids);
    forall i | 0 <= i < |c.lists|
      ensures SameCursors(c.lists[i].pages, d.lists[i].pages) && d.lists[i].view == c.lists[i].view
      ensures StayAsPushed(c, update, Rows(c.lists[i]), Rows(d.lists[i]), ids)
      ensures d.lists[i].workspace == c.lists[i].workspace
      ensures ids == {} ==> forall k | 0 <= k < |c.lists[i].pages| ::
                |d.lists[i].pages[k].rows| == |c.lists[i].pages[k].rows|
    {
      assert ListMapsTo(p.cache.lists[i], d.lists[i], f);
      MapStays(c, update, Rows(c.lists[i]), Rows(p.cache.lists[i]), f, ids);
    }
    forall i | 0 <= i < |c.pinned| ensures StayAsPushed(c, update, c.pinned[i].rows, d.pinned[i].rows, ids) {
      MapStays(c, update, c.pinned[i].rows, p.cache.pinned[i].rows, f, ids);
    }
  }

  lemma MovedAreDifferent(c: Cache, upserted: seq<Notification>)
    requires DifferentIds(upserted)
    ensures forall n | n in upserted && n.id !in c.inFlight :: n.id in MovedIds(c, upserted) <==> !IsShown(c, n)
  {
    forall n | n in upserted && n.id in MovedIds(c, upserted) ensures !IsShown(c, n) {
      var m :| m in upserted && m.id !in c.inFlight && !IsShown(c, m) && m.id == n.id;
      assert upserted[IndexOf(upserted, m)] == m && upserted[IndexOf(upserted, n)] == n;
    }
  }

  /** So when every notification that is pushed is held, or cached and archived or not as before, each row of each list
      and group stays at its place: those pushed as they were pushed, all others as they are. */
  lemma PushedInPlace(db: Table, c: Cache, update: Update)
    requires Agrees(db, c) && GroupsSorted(c) && DifferentIds(update.upserted) && update.readAll.None?
    requires forall n | n in update.upserted :: n.id in c.inFlight || IsShown(c, n)
    ensures var d := Receive(c, update);
            && |d.lists| == |c.lists| && |d.pinned| == |c.pinned|
            && (forall i | 0 <= i < |c.lists| :: InPlace(c, update.upserted, Rows(c.lists[i]), Rows(d.lists[i])))
            && (forall i | 0 <= i < |c.pinned| :: InPlace(c, update.upserted, c.pinned[i].rows, d.pinned[i].rows))
  {
    OthersStay(db, c, update);
    var d, ids := Receive(c, update), MovedIds(c, update.upserted);
    assert ids == {};
    forall i | 0 <= i < |c.lists| ensures InPlace(c, update.upserted, Rows(c.lists[i]), Rows(d.lists[i])) {
      StaysInPlace(c, update, Rows(c.lists[i]), Rows(d.lists[i]));
    }
    forall i | 0 <= i < |c.pinned| ensures InPlace(c, update.upserted, c.pinned[i].rows, d.pinned[i].rows) {
      StaysInPlace(c, update, c.pinned[i].rows, d.pinned[i].rows);
    }
  }

  ghost predicate InPlace(c: Cache, upserted: seq<Notification>, was: seq<Notification>, now: seq<Notification>) {
    && |now| == |was|
    && forall j | 0 <= j < |was| ::
         && now[j].id == was[j].id
         && (if was[j].id !in c.inFlight && Among(upserted, was[j].id) then now[j] in upserted else now[j] == was[j])
  }

  lemma StaysInPlace(c: Cache, update: Update, was: seq<Notification>, now: seq<Notification>)
    requires StayAsPushed(c, update, was, now, {}) && update.readAll.None?
    ensures InPlace(c, update.upserted, was, now)
  {
    ExceptNone(was, {});
    ExceptNone(now, {});
  }

  // ---- The read patch ----

  lemma {:induction false} ExceptConcat(a: seq<Notification>, b: seq<Notification>, ids: set<Id>)
    ensures Except(a + b, ids) == Except(a, ids) + Except(b, ids)
  {
    if a == [] {
      assert a + b == b;
    } else {
      assert (a + b)[1..] == a[1..] + b;
      ExceptConcat(a[1..], b, ids);
    }
  }

  function AsRead(ids: seq<Id>, readAt: Option<Time>, m: Notification): Notification {
    if m.id in ids then m.(readAt := readAt) else m
  }

  /** The rows are the old ones in their order, those of `ids` read or unread. */
  ghost predicate StayAsRead(ids: seq<Id>, readAt: Option<Time>, was: seq<Notification>, now: seq<Notification>) {
    |now| == |was| && forall j | 0 <= j < |was| :: now[j] == AsRead(ids, readAt, was[j])
  }

  /** The row is one of those sent, and with the patch no unread one any more. */
  predicate Departs(ids: seq<Id>, readAt: Option<Time>, n: Notification) {
    n.id in ids && (readAt.Some? || n.archivedAt.Some?)
  }

  /** The rows that are not, in their order. */
  function Remaining(rows: seq<Notification>, ids: seq<Id>, readAt: Option<Time>): (r: seq<Notification>)
    ensures forall n :: n in r <==> n in rows && !Departs(ids, readAt, n)
  {
    if rows == [] then []
    else if Departs(ids, readAt, rows[0]) then Remaining(rows[1..], ids, readAt)
    else [rows[0]] + Remaining(rows[1..], ids, readAt)
  }

  lemma {:induction false} RemainingConcat(a: seq<Notification>, b: seq<Notification>, ids: seq<Id>,
                                           readAt: Option<Time>)
    ensures Remaining(a + b, ids, readAt) == Remaining(a, ids, readAt) + Remaining(b, ids, readAt)
  {
    if a == [] {
      assert a + b == b;
    } else {
      assert (a + b)[1..] == a[1..] + b;
      RemainingConcat(a[1..], b, ids, readAt);
    }
  }

  /** What a pinned group has left: in the All tab the rows that are no longer unread leave it; every other row of a
      group stays where it is. */
  ghost predicate GroupReads(view: View, was: seq<Notification>, now: seq<Notification>, ids: seq<Id>,
                             readAt: Option<Time>) {
    StayAsRead(ids, readAt, if view.All? then Remaining(was, ids, readAt) else was, now)
  }

  lemma StayOneMore(ids: seq<Id>, readAt: Option<Time>, was: seq<Notification>, now: seq<Notification>, m: Notification)
    requires StayAsRead(ids, readAt, was, now)
    ensures StayAsRead(ids, readAt, was + [m], now + [AsRead(ids, readAt, m)])
  {
  }

  lemma RemainingSnoc(rest: seq<Notification>, last: Notification, ids: seq<Id>, readAt: Option<Time>)
    ensures Remaining(rest + [last], ids, readAt)
         == Remaining(rest, ids, readAt) + if Departs(ids, readAt, last) then [] else [last]
  {
    RemainingConcat(rest, [last], ids, readAt);
  }

  lemma StayingNext(view: View, rest: seq<Notification>, last: Notification, now: seq<Notification>, ids: seq<Id>,
                    readAt: Option<Time>)
    requires GroupReads(view, rest, now, ids, readAt)
    ensures GroupReads(view, rest + [last],
                       now + (if Leaves(view, ids, readAt, last) then [] else [ReadPatch(ids, readAt, last)]), ids,
                       readAt)
  {
    RemainingSnoc(rest, last, ids, readAt);
    if !Leaves(view, ids, readAt, last) {
      StayOneMore(ids, readAt, if view.All? then Remaining(rest, ids, readAt) else rest, now, last);
    }
  }

  lemma {:induction false} StayingIs(view: View, rows: seq<Notification>, ids: seq<Id>, readAt: Option<Time>)
    ensures GroupReads(view, rows, Staying(view, rows, ids, readAt), ids, readAt)
  {
    if rows != [] {
      var rest, last := rows[..|rows| - 1], rows[|rows| - 1];
      StayingIs(view, rest, ids, readAt);
      assert rows == rest + [last];
      StayingNext(view, rest, last, Staying(view, rest, ids, readAt), ids, readAt);
    }
  }

  lemma {:induction false} PatchGroupsAt(c: Cache, ids: seq<Id>, readAt: Option<Time>, k: nat, g: nat)
    requires k <= |c.pinned| && g < k
    ensures var group := c.pinned[g];
            PatchGroups(c, ids, readAt, k).pinned[g]
            == group.(rows := Staying(group.view, group.rows, ids, readAt))
  {
    var before := PatchGroups(c, ids, readAt, k - 1);
    var group := c.pinned[k - 1];
    var left := before.(pinned := before.pinned[k - 1 := group.(rows := Staying(group.view, group.rows, ids, readAt))]);
    PlaceAllKeepsRest(left, Moving(group.view, group.rows, ids, readAt), {All});
    if g < k - 1 { PatchGroupsAt(c, ids, readAt, k - 1, g); }
  }

  /** The list is the same but for rows of `ids`, and those too unless it is an All list. */
  ghost predicate ListUpTo(a: List, b: List, ids: set<Id>) {
    && b.workspace == a.workspace && b.view == a.view && SameCursors(a.pages, b.pages)
    && (if a.view.All? then Except(Rows(b), ids) == Except(Rows(a), ids) else b.pages == a.pages)
  }

  ghost predicate ListsUpTo(c: Cache, d: Cache, ids: set<Id>) {
    |d.lists| == |c.lists| && forall i | 0 <= i < |c.lists| :: ListUpTo(c.lists[i], d.lists[i], ids)
  }

  lemma ListsUpToTwice(c: Cache, d: Cache, e: Cache, ids: set<Id>)
    requires ListsUpTo(c, d, ids) && ListsUpTo(d, e, ids)
    ensures ListsUpTo(c, e, ids)
  {
    forall i | 0 <= i < |c.lists| ensures ListUpTo(c.lists[i], e.lists[i], ids) {
      assert ListUpTo(c.lists[i], d.lists[i], ids) && ListUpTo(d.lists[i], e.lists[i], ids);
    }
  }

  lemma {:induction false} PlaceAllUpTo(c: Cache, rows: seq<Notification>, ids: set<Id>)
    requires forall n | n in rows :: n.id in ids
    ensures ListsUpTo(c, PlaceAll(c, rows, {All}), ids)
  {
    if rows != [] {
      var rest, n := rows[..|rows| - 1], rows[|rows| - 1];
      PlaceAllUpTo(c, rest, ids);
      var before := PlaceAll(c, rest, {All});
      forall i | 0 <= i < |before.lists|
        ensures ListUpTo(before.lists[i], PlaceInList(before.lists[i], n, {All}), ids)
      {
        PlaceJoins(before.lists[i].view, before.lists[i].pages, n);
        ExceptPlace(before.lists[i], n, {All}, ids);
      }
      ListsUpToTwice(c, before, PlaceAll(c, rows, {All}), ids);
    }
  }

  lemma {:induction false} PatchGroupsUpTo(c: Cache, ids: seq<Id>, readAt: Option<Time>, k: nat, moved: set<Id>)
    requires k <= |c.pinned|
    requires forall g, n | 0 <= g < k && n in Moving(c.pinned[g].view, c.pinned[g].rows, ids, readAt) :: n.id in moved
    ensures ListsUpTo(c, PatchGroups(c, ids, readAt, k), moved)
  {
    if k > 0 {
      var before := PatchGroups(c, ids, readAt, k - 1);
      var group := c.pinned[k - 1];
      var stays := group.(rows := Staying(group.view, group.rows, ids, readAt));
      var left := before.(pinned := before.pinned[k - 1 := stays]);
      var moving := Moving(group.view, group.rows, ids, readAt);
      PatchGroupsUpTo(c, ids, readAt, k - 1, moved);
      PlaceAllUpTo(left, moving, moved);
      assert ListsUpTo(c, left, moved) by { assert left.lists == before.lists; }
      ListsUpToTwice(c, left, PlaceAll(left, moving, {All}), moved);
    }
  }

  /** The notifications that leave a pinned group of the All tab for the lists. */
  ghost function ReadAway(c: Cache, ids: seq<Id>, readAt: Option<Time>): set<Id> {
    set g: nat, n | g < |c.pinned| && n in c.pinned[g].rows && c.pinned[g].view.All? && Departs(ids, readAt, n) :: n.id
  }

  lemma {:induction false} MovingAreAway(view: View, rows: seq<Notification>, ids: seq<Id>, readAt: Option<Time>)
    ensures forall n | n in Moving(view, rows, ids, readAt) ::
              view.All? && exists m :: m in rows && m.id == n.id && Departs(ids, readAt, m)
  {
    if rows != [] {
      var rest, last := rows[..|rows| - 1], rows[|rows| - 1];
      MovingAreAway(view, rest, ids, readAt);
      assert rows == rest + [last];
    }
  }

  lemma ListsRead(c: Cache, d: Cache, f: Notification -> Notification, i: nat, ids: seq<Id>, readAt: Option<Time>,
                  moved: set<Id>)
    requires i < |c.lists| && i < |d.lists| && ListUpTo(MapList(c.lists[i], f), d.lists[i], moved)
    requires forall n :: f(n) == AsRead(ids, readAt, n)
    ensures SameCursors(c.lists[i].pages, d.lists[i].pages)
    ensures ListReads(c.lists[i], d.lists[i], ids, readAt, moved)
  {
    MapJoins(c.lists[i].pages, f);
    ExceptMap(Rows(c.lists[i]), f, moved);
  }

  lemma GroupRead(c: Cache, ids: seq<Id>, readAt: Option<Time>, g: nat)
    requires g < |c.pinned|
    ensures var d := PatchGroups(c, ids, readAt, |c.pinned|);
            && d.pinned[g].view == c.pinned[g].view
            && GroupReads(c.pinned[g].view, c.pinned[g].rows, d.pinned[g].rows, ids, readAt)
  {
    PatchGroupsAt(c, ids, readAt, |c.pinned|, g);
    StayingIs(c.pinned[g].view, c.pinned[g].rows, ids, readAt);
  }

  lemma ListsAway(c: Cache, ids: seq<Id>, readAt: Option<Time>)
    ensures ListsUpTo(c, PatchGroups(c, ids, readAt, |c.pinned|), ReadAway(c, ids, readAt))
  {
    forall g, n | 0 <= g < |c.pinned| && n in Moving(c.pinned[g].view, c.pinned[g].rows, ids, readAt)
      ensures n.id in ReadAway(c, ids, readAt)
    {
      MovingAreAway(c.pinned[g].view, c.pinned[g].rows, ids, readAt);
    }
    PatchGroupsUpTo(c, ids, readAt, |c.pinned|, ReadAway(c, ids, readAt));
  }

  /** Reading or unreading leaves every list and every pinned group as it is, the rows of `ids` read or unread where
      they are; but those that leave a pinned group of the All tab are gone from it and are placed in the All lists. */
  lemma ReadStays(c: Cache, ids: seq<Id>, readAt: Option<Time>)
    ensures var d := PatchRead(c, ids, readAt);
            && |d.lists| == |c.lists| && |d.pinned| == |c.pinned|
            && (forall i | 0 <= i < |c.lists| ::
                  && d.lists[i].workspace == c.lists[i].workspace && d.lists[i].view == c.lists[i].view
                  && SameCursors(c.lists[i].pages, d.lists[i].pages)
                  && ListReads(c.lists[i], d.lists[i], ids, readAt, ReadAway(c, ids, readAt)))
            && (forall g | 0 <= g < |c.pinned| ::
                  && d.pinned[g].view == c.pinned[g].view
                  && GroupReads(c.pinned[g].view, c.pinned[g].rows, d.pinned[g].rows, ids, readAt))
  {
    var f := (n: Notification) => ReadPatch(ids, readAt, n);
    var listed := MapLists(PatchSummary(c, ReadEdits(c, ids, readAt)), f);
    var d := PatchRead(c, ids, readAt);
    ListsAway(listed, ids, readAt);
    assert ReadAway(listed, ids, readAt) == ReadAway(c, ids, readAt);
    forall i | 0 <= i < |c.lists|
      ensures d.lists[i].workspace == c.lists[i].workspace && d.lists[i].view == c.lists[i].view
      ensures SameCursors(c.lists[i].pages, d.lists[i].pages)
      ensures ListReads(c.lists[i], d.lists[i], ids, readAt, ReadAway(c, ids, readAt))
    {
      assert ListUpTo(listed.lists[i], d.lists[i], ReadAway(c, ids, readAt));
      ListsRead(c, d, f, i, ids, readAt, ReadAway(c, ids, readAt));
    }
    forall g | 0 <= g < |c.pinned|
      ensures d.pinned[g].view == c.pinned[g].view
      ensures GroupReads(c.pinned[g].view, c.pinned[g].rows, d.pinned[g].rows, ids, readAt)
    {
      GroupRead(listed, ids, readAt, g);
    }
  }

  /** The rows of the list stay as they are read or unread, in an All list but for those of `moved`. */
  ghost predicate ListReads(a: List, b: List, ids: seq<Id>, readAt: Option<Time>, moved: set<Id>) {
    if a.view.All? then StayAsRead(ids, readAt, Except(Rows(a), moved), Except(Rows(b), moved))
    else StayAsRead(ids, readAt, Rows(a), Rows(b))
  }

  // ---- The archive patch ----

  lemma ArchivedIn(list: List, was: Notification, archivedAt: Option<Time>)
    ensures ArchivesIn(list, PlaceInList(list, ArchivePatch(was, archivedAt), VIEWS), was, archivedAt)
  {
    var next := ArchivePatch(was, archivedAt);
    PlaceJoins(list.view, list.pages, next);
    ExceptPlace(list, next, VIEWS, {was.id});
    if Takes(list, next) && Complete(list.pages) { PlacedIsShown(list, next); }
  }

  lemma ArchivedLists(c: Cache, n: Notification, archivedAt: Option<Time>)
    requires Cached(c, n.id).Some?
    ensures var d := PatchArchive(c, n, archivedAt);
            var was := Cached(c, n.id).value;
            && was.id == n.id && d.pinned == DropPinned(c, n.id).pinned && |d.lists| == |c.lists|
            && forall i | 0 <= i < |c.lists| ::
                 d.lists[i] == PlaceInList(c.lists[i], ArchivePatch(was, archivedAt), VIEWS)
  {
  }

  /** Archiving or bringing back takes a cached notification out of the pinned groups, and to its place in each list of
      its workspace that is complete and shows such rows; everything else stays. */
  lemma ArchiveStays(db: Table, c: Cache, n: Notification, archivedAt: Option<Time>)
    requires Agrees(db, c) && Cached(c, n.id).Some?
    ensures var d := PatchArchive(c, n, archivedAt);
            && n.id in db && |d.lists| == |c.lists| && |d.pinned| == |c.pinned|
            && (forall i | 0 <= i < |c.lists| :: ArchivesIn(c.lists[i], d.lists[i], db[n.id], archivedAt))
            && (forall g | 0 <= g < |c.pinned| ::
                  d.pinned[g] == c.pinned[g].(rows := Except(c.pinned[g].rows, {n.id})))
  {
    var d := PatchArchive(c, n, archivedAt);
    CachedIsRow(db, c, n.id);
    ArchivedLists(c, n, archivedAt);
    forall i | 0 <= i < |c.lists| ensures ArchivesIn(c.lists[i], d.lists[i], db[n.id], archivedAt) {
      ArchivedIn(c.lists[i], db[n.id], archivedAt);
    }
    forall g | 0 <= g < |c.pinned| ensures Without(c.pinned[g].rows, n.id) == Except(c.pinned[g].rows, {n.id}) {
      ExceptOne(c.pinned[g].rows, n.id);
    }
  }

  lemma {:induction false} ExceptOne(rows: seq<Notification>, id: Id)
    ensures Without(rows, id) == Except(rows, {id})
  {
    if rows != [] { ExceptOne(rows[1..], id); }
  }

  ghost predicate ArchivesIn(a: List, b: List, was: Notification, archivedAt: Option<Time>) {
    var next := was.(archivedAt := archivedAt,
                     readAt := if archivedAt.Some? && was.readAt.None? then archivedAt else was.readAt);
    && b.workspace == a.workspace && b.view == a.view && SameCursors(a.pages, b.pages)
    && Except(Rows(b), {was.id}) == Except(Rows(a), {was.id})
    && (!Takes(a, was) ==> b == a)
    && (Takes(a, was) && Complete(a.pages) ==> (next in Rows(b) <==> BelongsTo(a.view, next)))
  }
}
