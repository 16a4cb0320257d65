/** Changes in flight: what a pushed update may not touch, and the summary that is fetched once they settle. */
module InboxFlight {
  import opened Base
  import opened Notifications
  import opened Inbox

  // ---- A held notification is left alone ----

  /** Both have the same copies of the notification `id`, as often. */
  ghost predicate SameCopies(a: seq<Notification>, b: seq<Notification>, id: Id) {
    forall n: Notification | n.id == id :: multiset(a)[n] == multiset(b)[n]
  }

  ghost predicate SameInCache(c: Cache, d: Cache, id: Id) {
    && |c.lists| == |d.lists| && |c.pinned| == |d.pinned|
    && (forall i | 0 <= i < |c.lists| :: SameCopies(Rows(c.lists[i]), Rows(d.lists[i]), id))
    && (forall i | 0 <= i < |c.pinned| :: SameCopies(c.pinned[i].rows, d.pinned[i].rows, id))
  }

  lemma SameTransitive(c: Cache, d: Cache, e: Cache, id: Id)
    requires SameInCache(c, d, id) && SameInCache(d, e, id)
    ensures SameInCache(c, e, id)
  {
    forall i | 0 <= i < |c.lists| ensures SameCopies(Rows(c.lists[i]), Rows(e.lists[i]), id) {
      assert SameCopies(Rows(c.lists[i]), Rows(d.lists[i]), id) && SameCopies(Rows(d.lists[i]), Rows(e.lists[i]), id);
    }
    forall i | 0 <= i < |c.pinned| ensures SameCopies(c.pinned[i].rows, e.pinned[i].rows, id) {
      assert SameCopies(c.pinned[i].rows, d.pinned[i].rows, id) && SameCopies(d.pinned[i].rows, e.pinned[i].rows, id);
    }
  }

  lemma {:induction false} WithoutKeeps(rows: seq<Notification>, gone: Id, id: Id)
    requires gone != id
    ensures SameCopies(rows, Without(rows, gone), id)
  {
    if rows != [] {
      WithoutKeeps(rows[1..], gone, id);
      assert rows == [rows[0]] + rows[1..];
    }
  }

  lemma {:induction false} InsertTally(view: View, rows: seq<Notification>, n: Notification)
    ensures multiset(Insert(view, rows, n)) == multiset(rows) + multiset{n}
  {
    if rows != [] && !ComesBefore(view, n, rows[0]) {
      InsertTally(view, rows[1..], n);
      assert rows == [rows[0]] + rows[1..];
    }
  }

  lemma {:induction false} SortTally(rows: seq<Notification>)
    ensures multiset(SortPinned(rows)) == multiset(rows)
  {
    if rows != [] {
      SortTally(rows[1..]);
      InsertTally(All, SortPinned(rows[1..]), rows[0]);
      assert rows == [rows[0]] + rows[1..];
    }
  }

  lemma PlaceSame(c: Cache, n: Notification, id: Id)
    requires n.id != id
    ensures SameInCache(c, PlaceInLists(PlaceInPinned(c, n), n, VIEWS), id)
  {
    var d := PlaceInLists(PlaceInPinned(c, n), n, VIEWS);
    forall i | 0 <= i < |c.lists| ensures SameCopies(Rows(c.lists[i]), Rows(d.lists[i]), id) {
      var list := c.lists[i];
      var rest := Without(Rows(list), n.id);
      PlaceJoins(list.view, list.pages, n);
      WithoutKeeps(Rows(list), n.id, id);
      InsertTally(list.view, rest, n);
    }
    forall i | 0 <= i < |c.pinned| ensures SameCopies(c.pinned[i].rows, d.pinned[i].rows, id) {
      WithoutKeeps(c.pinned[i].rows, n.id, id);
      SortTally([n] + Without(c.pinned[i].rows, n.id));
    }
  }

  /** `f` leaves `id` alone and makes no other notification into it. */
  ghost predicate Spares(f: Notification -> Notification, id: Id) {
    forall n: Notification :: (n.id == id ==> f(n) == n) && (n.id != id ==> f(n).id != id)
  }

  lemma {:induction false} MapRowsSame(rows: seq<Notification>, f: Notification -> Notification, id: Id)
    requires Spares(f, id)
    ensures SameCopies(rows, MapRows(rows, f), id)
  {
    if rows != [] {
      MapRowsSame(rows[1..], f, id);
      assert rows == [rows[0]] + rows[1..];
      assert MapRows(rows, f) == [f(rows[0])] + MapRows(rows[1..], f);
    }
  }

  lemma MapSame(c: Cache, f: Notification -> Notification, id: Id)
    requires Spares(f, id)
    ensures SameInCache(c, MapCopies(c, f), id)
  {
    var d := MapCopies(c, f);
    forall i | 0 <= i < |c.lists| ensures SameCopies(Rows(c.lists[i]), Rows(d.lists[i]), id) {
      MapJoins(c.lists[i].pages, f);
      MapRowsSame(Rows(c.lists[i]), f, id);
    }
    forall i | 0 <= i < |c.pinned| ensures SameCopies(c.pinned[i].rows, d.pinned[i].rows, id) {
      MapRowsSame(c.pinned[i].rows, f, id);
    }
  }

  lemma {:induction false} LastOfHasId(rows: seq<Notification>, id: Id)
    ensures LastOf(rows, id).Some? ==> LastOf(rows, id).value.id == id && LastOf(rows, id).value in rows
  {
    if rows != [] && rows[|rows| - 1].id != id {
      LastOfHasId(rows[..|rows| - 1], id);
    }
  }

  lemma {:induction false} UpsertAllSame(c: Cache, upserted: seq<Notification>, id: Id)
    requires id in c.inFlight
    ensures var p := UpsertAll(c, upserted);
            && SameInCache(c, p.cache, id) && p.cache.inFlight == c.inFlight
            && forall n | n in p.inPlace :: n.id != id
  {
    if upserted != [] {
      var rest, n := upserted[..|upserted| - 1], upserted[|upserted| - 1];
      UpsertAllSame(c, rest, id);
      var p := UpsertAll(c, rest);
      if n.id !in c.inFlight {
        PlaceSame(p.cache, n, id);
        var placed := PlaceInLists(PlaceInPinned(p.cache, n), n, VIEWS);
        SameTransitive(c, p.cache, placed, id);
      }
    }
  }

  /** No pushed update changes, adds or removes a cached copy of a notification that is held. */
  lemma HeldUntouched(c: Cache, update: Update, id: Id)
    requires id in c.inFlight
    ensures SameInCache(c, Receive(c, update), id)
  {
    var p := UpsertAll(c, update.upserted);
    UpsertAllSame(c, update.upserted, id);
    var replaced := ReplaceInPlace(p.cache, p.inPlace);
    var swap := (n: Notification) => LastOf(p.inPlace, n.id).GetOr(n);
    forall n: Notification ensures (n.id == id ==> swap(n) == n) && (n.id != id ==> swap(n).id != id) {
      LastOfHasId(p.inPlace, n.id);
    }
    MapSame(p.cache, swap, id);
    SameTransitive(c, p.cache, replaced, id);
    if update.readAll.Some? {
      MapSame(replaced, (n: Notification) => ReadAllOne(c.inFlight, update.readAll.value, n), id);
      SameTransitive(c, replaced, ReadAllInPlace(replaced, update.readAll.value), id);
    }
  }

  // ---- The skipped summary ----

  lemma {:induction false} UpsertAllFlight(c: Cache, upserted: seq<Notification>)
    ensures var d := UpsertAll(c, upserted).cache;
            && d.inFlight == c.inFlight && d.summary == c.summary && d.refetches == c.refetches
            && (d.behind ==> c.behind || c.inFlight != map[]) && (c.behind ==> d.behind)
  {
    if upserted != [] {
      UpsertAllFlight(c, upserted[..|upserted| - 1]);
    }
  }

  /** The pushed counts are written only when nothing is in flight; otherwise they are noted as skipped. */
  lemma SummaryWaits(c: Cache, update: Update)
    ensures var d := Receive(c, update);
            && d.summary == (if c.inFlight == map[] then Some(update.summary) else c.summary)
            && d.behind == (c.behind || c.inFlight != map[])
            && d.inFlight == c.inFlight && d.refetches == c.refetches
  {
    UpsertAllFlight(c, update.upserted);
  }

  datatype Event =
    | Held(ids: seq<Id>)
    | Settled(ids: seq<Id>, fetched: Fetched)
    | Pushed(update: Update)
    | Patched(ids: seq<Id>, readAt: Option<Time>)
    | Moved(n: Notification, archivedAt: Option<Time>)

  function After(c: Cache, event: Event): Cache {
    match event
    case Held(ids) => Hold(c, ids)
    case Settled(ids, fetched) => Release(c, ids, fetched)
    case Pushed(update) => Receive(c, update)
    case Patched(ids, readAt) => PatchRead(c, ids, readAt)
    case Moved(n, archivedAt) => PatchArchive(c, n, archivedAt)
  }

  function AfterAll(c: Cache, events: seq<Event>): Cache
    decreases |events|
  {
    if events == [] then c else AfterAll(After(c, events[0]), events[1..])
  }

  /** How often a summary was skipped while none was owed yet. */
  function Skips(c: Cache, events: seq<Event>): nat
    decreases |events|
  {
    if events == [] then 0
    else
      var next := After(c, events[0]);
      (if !c.behind && next.behind then 1 else 0) + Skips(next, events[1..])
  }

  /** A summary is owed only while a change is in flight. */
  predicate OwesOnlyInFlight(c: Cache) {
    c.behind ==> c.inFlight != map[]
  }

  lemma {:induction false} HoldAllGrows(inFlight: map<Id, nat>, ids: seq<Id>)
    ensures inFlight.Keys <= HoldAll(inFlight, ids).Keys
  {
    if ids != [] {
      HoldAllGrows(inFlight, ids[..|ids| - 1]);
    }
  }

  lemma {:induction false} PatchGroupsFlight(c: Cache, ids: seq<Id>, readAt: Option<Time>, k: nat)
    requires k <= |c.pinned|
    ensures var d := PatchGroups(c, ids, readAt, k);
            d == c.(lists := d.lists, pinned := d.pinned) && |d.lists| == |c.lists|
  {
    if k > 0 {
      PatchGroupsFlight(c, ids, readAt, k - 1);
      var before := PatchGroups(c, ids, readAt, k - 1);
      var group := c.pinned[k - 1];
      PlaceAllKeepsRest(before.(pinned := before.pinned[k - 1 := group.(rows := Staying(group.view, group.rows, ids,
          readAt))]),
                        Moving(group.view, group.rows, ids, readAt), {All});
    }
  }

  lemma PatchFlight(c: Cache, ids: seq<Id>, readAt: Option<Time>)
    ensures var d := PatchRead(c, ids, readAt);
            d.inFlight == c.inFlight && d.behind == c.behind && d.refetches == c.refetches
  {
    var listed := MapLists(PatchSummary(c, ReadEdits(c, ids, readAt)), (n: Notification) => ReadPatch(ids, readAt, n));
    PatchGroupsFlight(listed, ids, readAt, |listed.pinned|);
  }

  lemma AfterOwes(c: Cache, event: Event)
    requires OwesOnlyInFlight(c)
    ensures var d := After(c, event);
            && OwesOnlyInFlight(d)
            && d.refetches == c.refetches + if c.behind && !d.behind then 1 else 0
  {
    match event
    case Held(ids) => HoldAllGrows(c.inFlight, ids);
    case Settled(_, _) =>
    case Pushed(update) => SummaryWaits(c, update);
    case Patched(ids, readAt) => PatchFlight(c, ids, readAt);
    case Moved(_, _) =>
  }

  /** Each skip is followed by exactly one fetch: at any moment the fetches are the skips, less the one that is owed
      while changes are in flight. */
  lemma {:induction false} SkipsAreFetched(c: Cache, events: seq<Event>)
    requires OwesOnlyInFlight(c)
    ensures var d := AfterAll(c, events);
            && OwesOnlyInFlight(d)
            && d.refetches + (if d.behind then 1 else 0)
               == c.refetches + (if c.behind then 1 else 0) + Skips(c, events)
    decreases |events|
  {
    if events != [] {
      AfterOwes(c, events[0]);
      SkipsAreFetched(After(c, events[0]), events[1..]);
    }
  }

  // ---- Counting the changes in flight ----

  /** An id is in flight as often as it is in `held`. */
  ghost predicate Tallies(inFlight: map<Id, nat>, held: multiset<Id>) {
    forall id :: (id in inFlight <==> id in held) && (id in inFlight ==> inFlight[id] == held[id])
  }

  lemma {:induction false} HoldTallies(inFlight: map<Id, nat>, held: multiset<Id>, ids: seq<Id>)
    requires Tallies(inFlight, held)
    ensures Tallies(HoldAll(inFlight, ids), held + multiset(ids))
  {
    if ids != [] {
      HoldTallies(inFlight, held, ids[..|ids| - 1]);
      assert ids == ids[..|ids| - 1] + [ids[|ids| - 1]];
    }
  }

  lemma {:induction false} ReleaseTallies(inFlight: map<Id, nat>, held: multiset<Id>, ids: seq<Id>)
    requires Tallies(inFlight, held)
    ensures Tallies(ReleaseAll(inFlight, ids), held - multiset(ids))
  {
    if ids != [] {
      ReleaseTallies(inFlight, held, ids[..|ids| - 1]);
      assert ids == ids[..|ids| - 1] + [ids[|ids| - 1]];
    }
  }

  lemma TalliesUnique(a: map<Id, nat>, b: map<Id, nat>, held: multiset<Id>)
    requires Tallies(a, held) && Tallies(b, held)
    ensures a == b
  {
  }

  /** Releasing what was held restores what was in flight, whatever else was held in between. */
  lemma HoldThenRelease(inFlight: map<Id, nat>, held: multiset<Id>, ids: seq<Id>, others: seq<Id>)
    requires Tallies(inFlight, held)
    ensures ReleaseAll(HoldAll(HoldAll(inFlight, ids), others), ids) == HoldAll(inFlight, others)
  {
    var first := held + multiset(ids);
    HoldTallies(inFlight, held, ids);
    HoldTallies(HoldAll(inFlight, ids), first, others);
    ReleaseTallies(HoldAll(HoldAll(inFlight, ids), others), first + multiset(others), ids);
    HoldTallies(inFlight, held, others);
    assert first + multiset(others) - multiset(ids) == held + multiset(others);
    TalliesUnique(ReleaseAll(HoldAll(HoldAll(inFlight, ids), others), ids), HoldAll(inFlight, others),
                  held + multiset(others));
  }

  // ---- A notification that stays held ----

  lemma ListsSame(c: Cache, n: Notification, views: set<View>, id: Id)
    requires n.id != id
    ensures SameInCache(c, PlaceInLists(c, n, views), id)
  {
    var d := PlaceInLists(c, n, views);
    forall i | 0 <= i < |c.lists| ensures SameCopies(Rows(c.lists[i]), Rows(d.lists[i]), id) {
      var list := c.lists[i];
      PlaceJoins(list.view, list.pages, n);
      WithoutKeeps(Rows(list), n.id, id);
      InsertTally(list.view, Without(Rows(list), n.id), n);
    }
  }

  lemma {:induction false} PlaceAllSame(c: Cache, rows: seq<Notification>, views: set<View>, id: Id)
    requires forall n | n in rows :: n.id != id
    ensures SameInCache(c, PlaceAll(c, rows, views), id)
  {
    if rows != [] {
      var rest, n := rows[..|rows| - 1], rows[|rows| - 1];
      assert rows == rest + [n];
      PlaceAllSame(c, rest, views, id);
      ListsSame(PlaceAll(c, rest, views), n, views, id);
      SameTransitive(c, PlaceAll(c, rest, views), PlaceAll(c, rows, views), id);
    }
  }

  lemma {:induction false} StayingSame(view: View, rows: seq<Notification>, ids: seq<Id>, readAt: Option<Time>, id: Id)
    requires id !in ids
    ensures SameCopies(rows, Staying(view, rows, ids, readAt), id)
  {
    if rows != [] {
      StayingSame(view, rows[..|rows| - 1], ids, readAt, id);
      assert rows == rows[..|rows| - 1] + [rows[|rows| - 1]];
    }
  }

  lemma GroupSame(c: Cache, k: nat, rows: seq<Notification>, id: Id)
    requires k < |c.pinned| && SameCopies(c.pinned[k].rows, rows, id)
    ensures SameInCache(c, c.(pinned := c.pinned[k := c.pinned[k].(rows := rows)]), id)
  {
  }

  lemma {:induction false} PatchGroupsSame(c: Cache, ids: seq<Id>, readAt: Option<Time>, k: nat, id: Id)
    requires k <= |c.pinned| && id !in ids
    ensures SameInCache(c, PatchGroups(c, ids, readAt, k), id)
  {
    if k > 0 {
      PatchGroupsSame(c, ids, readAt, k - 1, id);
      var before := PatchGroups(c, ids, readAt, k - 1);
      var group := c.pinned[k - 1];
      var stays := Staying(group.view, group.rows, ids, readAt);
      var left := before.(pinned := before.pinned[k - 1 := group.(rows := stays)]);
      assert before.pinned[k - 1..][0] == c.pinned[k - 1..][0];
      StayingSame(group.view, group.rows, ids, readAt, id);
      GroupSame(before, k - 1, stays, id);
      PlaceAllSame(left, Moving(group.view, group.rows, ids, readAt), {All}, id);
      SameTransitive(c, before, left, id);
      SameTransitive(c, left, PatchGroups(c, ids, readAt, k), id);
    }
  }

  lemma ReadSame(c: Cache, ids: seq<Id>, readAt: Option<Time>, id: Id)
    requires id !in ids
    ensures SameInCache(c, PatchRead(c, ids, readAt), id)
  {
    var f := (n: Notification) => ReadPatch(ids, readAt, n);
    var counted := PatchSummary(c, ReadEdits(c, ids, readAt));
    var listed := MapLists(counted, f);
    forall i | 0 <= i < |c.lists| ensures SameCopies(Rows(c.lists[i]), Rows(listed.lists[i]), id) {
      MapJoins(c.lists[i].pages, f);
      MapRowsSame(Rows(c.lists[i]), f, id);
    }
    PatchGroupsSame(listed, ids, readAt, |listed.pinned|, id);
    SameTransitive(c, listed, PatchRead(c, ids, readAt), id);
  }

  lemma ArchiveSame(c: Cache, n: Notification, archivedAt: Option<Time>, id: Id)
    requires n.id != id
    ensures SameInCache(c, PatchArchive(c, n, archivedAt), id)
  {
    var current := Cached(c, n.id).GetOr(n);
    var next := ArchivePatch(current, archivedAt);
    var counted := PatchSummary(c, [Edit(current, next)]);
    var placed := PlaceInLists(counted, next, VIEWS);
    ListsSame(counted, next, VIEWS, id);
    forall i | 0 <= i < |placed.pinned|
      ensures SameCopies(placed.pinned[i].rows, DropPinned(placed, next.id).pinned[i].rows, id)
    {
      WithoutKeeps(placed.pinned[i].rows, next.id, id);
    }
    SameTransitive(counted, placed, DropPinned(placed, next.id), id);
  }

  /** The event is no patch of this notification. */
  predicate Spared(event: Event, id: Id) {
    match event
    case Patched(ids, _) => id !in ids
    case Moved(n, _) => n.id != id
    case _ => true
  }

  /** The notification is held before and after each of the events, and none of them patches it. */
  predicate StaysHeld(c: Cache, events: seq<Event>, id: Id)
    decreases |events|
  {
    && id in c.inFlight
    && (events != [] ==> Spared(events[0], id) && StaysHeld(After(c, events[0]), events[1..], id))
  }

  lemma EventSpares(c: Cache, event: Event, id: Id)
    requires id in c.inFlight && Spared(event, id) && id in After(c, event).inFlight
    ensures SameInCache(c, After(c, event), id)
  {
    match event
    case Held(_) =>
    case Settled(_, _) =>
    case Pushed(update) => HeldUntouched(c, update, id);
    case Patched(ids, readAt) => ReadSame(c, ids, readAt, id);
    case Moved(n, archivedAt) => ArchiveSame(c, n, archivedAt, id);
  }

  /** Whatever is pushed, held, patched and released meanwhile, a notification that stays held keeps its copies. */
  lemma {:induction false} HeldThroughout(c: Cache, events: seq<Event>, id: Id)
    requires StaysHeld(c, events, id)
    ensures SameInCache(c, AfterAll(c, events), id)
    decreases |events|
  {
    if events != [] {
      var next := After(c, events[0]);
      EventSpares(c, events[0], id);
      HeldThroughout(next, events[1..], id);
      SameTransitive(c, next, AfterAll(c, events), id);
    }
  }
}
