/** A cache that receives every pushed update, with no change of its own in flight, shows what the server lists. */
module InboxSync {
  import opened Base
  import opened Notifications
  import opened Inbox
  import opened InboxPrefix

  // ---- Agreement of the cache with the server ----

  /** The copy is the server's row. */
  ghost predicate IsRow(db: Table, n: Notification) {
    n.id in db && db[n.id] == n
  }

  ghost predicate RowsAgree(db: Table, workspace: Id, view: View, rows: seq<Notification>, complete: bool) {
    && Sorted(view, rows)
    && (forall n | n in rows :: IsRow(db, n) && (n.workspace == Some(workspace) || n.workspace.None?))
    && (!view.Unread? ==> forall n | n in rows && n.workspace.Some? :: Keeps(view, n))
    && (!view.Unread? && complete ==>
          forall id | id in db && db[id].workspace == Some(workspace) && Keeps(view, db[id]) :: db[id] in rows)
  }

  ghost predicate ListAgrees(db: Table, list: List) {
    RowsAgree(db, list.workspace, list.view, Rows(list), Complete(list.pages))
  }

  ghost predicate GroupAgrees(db: Table, group: Group) {
    forall n | n in group.rows :: IsRow(db, n) && n.workspace.None?
  }

  ghost predicate Agrees(db: Table, c: Cache) {
    && (forall i | 0 <= i < |c.lists| :: ListAgrees(db, c.lists[i]))
    && (forall i | 0 <= i < |c.pinned| :: GroupAgrees(db, c.pinned[i]))
  }

  lemma CachedIsRow(db: Table, c: Cache, id: Id)
    requires Agrees(db, c)
    ensures Cached(c, id).Some? ==> id in db && Cached(c, id).value == db[id]
  {
    var known := Cached(c, id);
    if known.Some? {
      var n := known.value;
      InListCopies(c.lists, n);
      InGroupCopies(c.pinned, n);
      if n in ListCopies(c.lists) {
        var i :| 0 <= i < |c.lists| && n in Rows(c.lists[i]);
        assert ListAgrees(db, c.lists[i]) && IsRow(db, n);
      } else {
        var i :| 0 <= i < |c.pinned| && n in c.pinned[i].rows;
        assert GroupAgrees(db, c.pinned[i]) && IsRow(db, n);
      }
    }
  }

  // ---- Placing keeps it ----

  lemma PlaceRowsKeepsAll(db: Table, workspace: Id, view: View, rows: seq<Notification>, n: Notification)
    requires Keyed(db) && !view.Unread? && Sorted(view, rows)
    requires forall id | id in db && db[id].workspace == Some(workspace) && Keeps(view, db[id]) :: db[id] in rows
    ensures var next := db[n.id := n];
            forall id | id in next && next[id].workspace == Some(workspace) && Keeps(view, next[id]) ::
              next[id] in PlaceRows(view, rows, true, n)
  {
    var next, placed := db[n.id := n], PlaceRows(view, rows, true, n);
    WithoutSorted(view, rows, n.id);
    if BelongsTo(view, n) { InsertSorted(view, Without(rows, n.id), n); }
    forall id | id in next && next[id].workspace == Some(workspace) && Keeps(view, next[id])
      ensures next[id] in placed
    {
      assert id != n.id ==> db[id] in Without(rows, n.id);
    }
  }

  lemma PlaceRowsAgrees(db: Table, workspace: Id, view: View, rows: seq<Notification>, complete: bool, n: Notification)
    requires Keyed(db) && RowsAgree(db, workspace, view, rows, complete)
    requires n.workspace == Some(workspace) || n.workspace.None?
    ensures RowsAgree(db[n.id := n], workspace, view, PlaceRows(view, rows, complete, n), complete)
  {
    var rest := Without(rows, n.id);
    WithoutSorted(view, rows, n.id);
    if BelongsTo(view, n) && (complete || HasLater(view, rest, n)) {
      InsertSorted(view, rest, n);
    }
    forall m | m in PlaceRows(view, rows, complete, n) ensures m == n || m in rest {
    }
    if !view.Unread? && complete { PlaceRowsKeepsAll(db, workspace, view, rows, n); }
  }

  lemma PlaceInListAgrees(db: Table, list: List, n: Notification)
    requires Keyed(db) && ListAgrees(db, list)
    requires n.id in db ==> db[n.id].workspace == n.workspace
    ensures ListAgrees(db[n.id := n], PlaceInList(list, n, VIEWS))
  {
    if n.workspace == Some(list.workspace) || n.workspace.None? {
      PlaceJoins(list.view, list.pages, n);
      PlaceRowsAgrees(db, list.workspace, list.view, Rows(list), Complete(list.pages), n);
    } else {
      assert forall m | m in Rows(list) :: IsRow(db, m) && m.id != n.id;
    }
  }

  lemma PlaceAgrees(db: Table, c: Cache, n: Notification)
    requires Keyed(db) && Agrees(db, c)
    requires n.id in db ==> db[n.id].workspace == n.workspace
    ensures Agrees(db[n.id := n], PlaceInLists(PlaceInPinned(c, n), n, VIEWS))
  {
    forall i | 0 <= i < |c.lists| ensures ListAgrees(db[n.id := n], PlaceInList(c.lists[i], n, VIEWS)) {
      PlaceInListAgrees(db, c.lists[i], n);
    }
    forall i | 0 <= i < |c.pinned| ensures GroupAgrees(db[n.id := n], PlaceInGroup(c.pinned[i], n)) {
      assert GroupAgrees(db, c.pinned[i]);
      forall m | m in PlaceInGroup(c.pinned[i], n).rows ensures IsRow(db[n.id := n], m) {
        assert m == n || m in Without(c.pinned[i].rows, n.id);
      }
    }
  }

  // ---- Replacing in place keeps it ----

  /** The same rows with the same workspace and dates; only whether they are read differs. */
  ghost predicate OnlyRead(db: Table, next: Table) {
    && db.Keys == next.Keys
    && forall id | id in db ::
         && next[id].id == db[id].id
         && next[id].workspace == db[id].workspace
         && next[id].updatedAt == db[id].updatedAt
         && next[id].archivedAt == db[id].archivedAt
  }

  ghost predicate Follows(db: Table, next: Table, f: Notification -> Notification) {
    forall n | IsRow(db, n) :: n.id in next && f(n) == next[n.id]
  }

  lemma MapRowsAgrees(db: Table, next: Table, workspace: Id, view: View, rows: seq<Notification>, complete: bool,
                      f: Notification -> Notification)
    requires Keyed(db) && RowsAgree(db, workspace, view, rows, complete)
    requires OnlyRead(db, next) && Follows(db, next, f)
    ensures RowsAgree(next, workspace, view, MapRows(rows, f), complete)
  {
    var mapped := MapRows(rows, f);
    forall i | 0 <= i < |rows|
      ensures IsRow(db, rows[i]) && mapped[i] == next[rows[i].id] && mapped[i].id == rows[i].id
    {
      assert rows[i] in rows;
    }
    forall i, j | 0 <= i < j < |mapped| ensures ComesBefore(view, mapped[i], mapped[j]) {
      assert ComesBefore(view, rows[i], rows[j]);
    }
    forall n | n in mapped
      ensures IsRow(next, n) && (n.workspace == Some(workspace) || n.workspace.None?)
      ensures !view.Unread? && n.workspace.Some? ==> Keeps(view, n)
    {
      var i := IndexOf(mapped, n);
      assert rows[i] in rows;
    }
    if !view.Unread? && complete {
      forall id | id in next && next[id].workspace == Some(workspace) && Keeps(view, next[id])
        ensures next[id] in mapped
      {
        var i := IndexOf(rows, db[id]);
        assert mapped[i] == next[id];
      }
    }
  }

  lemma MapAgrees(db: Table, next: Table, c: Cache, f: Notification -> Notification)
    requires Keyed(db) && Agrees(db, c) && OnlyRead(db, next) && Follows(db, next, f)
    ensures Agrees(next, MapCopies(c, f))
  {
    forall i | 0 <= i < |c.lists| ensures ListAgrees(next, MapList(c.lists[i], f)) {
      var list := c.lists[i];
      MapJoins(list.pages, f);
      assert ListAgrees(db, list);
      MapRowsAgrees(db, next, list.workspace, list.view, Rows(list), Complete(list.pages), f);
    }
    forall i | 0 <= i < |c.pinned|
      ensures GroupAgrees(next, c.pinned[i].(rows := MapRows(c.pinned[i].rows, f)))
    {
      assert GroupAgrees(db, c.pinned[i]);
      forall n | n in MapRows(c.pinned[i].rows, f) ensures IsRow(next, n) {
        var j := IndexOf(MapRows(c.pinned[i].rows, f), n);
        assert c.pinned[i].rows[j] in c.pinned[i].rows;
      }
    }
  }

  // ---- A pushed update ----

  ghost predicate DifferentIds(rows: seq<Notification>) {
    forall i, j | 0 <= i < j < |rows| :: rows[i].id != rows[j].id
  }

  ghost predicate Among(rows: seq<Notification>, id: Id) {
    exists n :: n in rows && n.id == id
  }

  /** A written row keeps the workspace and the date of its last event. */
  ghost predicate KeepsPlace(db: Table, n: Notification) {
    n.id in db ==> db[n.id].workspace == n.workspace && db[n.id].updatedAt == n.updatedAt
  }

  /** The table with the upserted rows that were placed, without those left to be replaced in place. */
  ghost function Placed(db: Table, c: Cache, upserted: seq<Notification>): Table {
    if upserted == [] then db
    else
      var rest, n := upserted[..|upserted| - 1], upserted[|upserted| - 1];
      if UpsertAll(c, upserted).inPlace == UpsertAll(c, rest).inPlace
      then Placed(db, c, rest)[n.id := n]
      else Placed(db, c, rest)
  }

  /** Of the upserted rows, each is placed, or is left with its old row, archived or not as before. */
  ghost predicate Sorts(db: Table, placed: Table, upserted: seq<Notification>, inPlace: seq<Notification>) {
    && Keyed(placed)
    && (forall id | !Among(upserted, id) :: (id in placed <==> id in db) && (id in db ==> placed[id] == db[id]))
    && (forall n | n in upserted && n !in inPlace :: n.id in placed && placed[n.id] == n)
    && (forall n | n in inPlace :: n in upserted && n.id in db && n.id in placed
          && placed[n.id] == db[n.id] && n.archivedAt == db[n.id].archivedAt)
  }

  lemma SortsPlace(db: Table, placed: Table, rest: seq<Notification>, inPlace: seq<Notification>, n: Notification)
    requires Sorts(db, placed, rest, inPlace) && !Among(rest, n.id)
    ensures Sorts(db, placed[n.id := n], rest + [n], inPlace)
  {
    forall id | !Among(rest + [n], id)
      ensures id != n.id && !Among(rest, id)
    {
      assert n in rest + [n];
      assert forall m | m in rest :: m in rest + [n];
    }
  }

  lemma SortsInPlace(db: Table, placed: Table, rest: seq<Notification>, inPlace: seq<Notification>, n: Notification)
    requires Sorts(db, placed, rest, inPlace) && !Among(rest, n.id)
    requires n.id in placed && placed[n.id].archivedAt == n.archivedAt
    ensures Sorts(db, placed, rest + [n], inPlace + [n])
  {
    forall id | !Among(rest + [n], id)
      ensures id != n.id && !Among(rest, id)
    {
      assert n in rest + [n];
      assert forall m | m in rest :: m in rest + [n];
    }
  }

  /** The cache after some of the upserted rows, and the ones of them that wait to be replaced in place. */
  ghost predicate SortedInto(db: Table, placed: Table, upserted: seq<Notification>, p: Progress) {
    && Agrees(placed, p.cache) && p.cache.inFlight == map[]
    && Sorts(db, placed, upserted, p.inPlace)
    && DifferentIds(p.inPlace)
  }

  lemma WaitsSorted(db: Table, placed: Table, rest: seq<Notification>, p: Progress, n: Notification)
    requires SortedInto(db, placed, rest, p) && !Among(rest, n.id)
    requires Cached(p.cache, n.id).Some? && Cached(p.cache, n.id).value.archivedAt == n.archivedAt
    ensures SortedInto(db, placed, rest + [n], p.(inPlace := p.inPlace + [n]))
  {
    CachedIsRow(placed, p.cache, n.id);
    SortsInPlace(db, placed, rest, p.inPlace, n);
    assert forall m | m in p.inPlace :: m in rest;
  }

  lemma PlacedSorted(db: Table, placed: Table, rest: seq<Notification>, p: Progress, n: Notification)
    requires SortedInto(db, placed, rest, p) && !Among(rest, n.id) && KeepsPlace(db, n)
    ensures SortedInto(db, placed[n.id := n], rest + [n],
                       p.(cache := PlaceInLists(PlaceInPinned(p.cache, n), n, VIEWS)))
  {
    SortsPlace(db, placed, rest, p.inPlace, n);
    PlaceAgrees(placed, p.cache, n);
  }

  lemma {:induction false} UpsertAllAgrees(db: Table, c: Cache, upserted: seq<Notification>)
    requires Keyed(db) && Agrees(db, c) && c.inFlight == map[]
    requires DifferentIds(upserted) && forall n | n in upserted :: KeepsPlace(db, n)
    ensures SortedInto(db, Placed(db, c, upserted), upserted, UpsertAll(c, upserted))
  {
    if upserted != [] {
      var rest, n := upserted[..|upserted| - 1], upserted[|upserted| - 1];
      assert upserted == rest + [n];
      assert forall m | m in rest :: m in upserted;
      UpsertAllAgrees(db, c, rest);
      assert !Among(rest, n.id);
      var before := UpsertAll(c, rest);
      var known := Cached(before.cache, n.id);
      if known.Some? && known.value.archivedAt == n.archivedAt {
        assert before.inPlace + [n] != before.inPlace;
        WaitsSorted(db, Placed(db, c, rest), rest, before, n);
      } else {
        PlacedSorted(db, Placed(db, c, rest), rest, before, n);
      }
    }
  }

  lemma {:induction false} LastOfIs(rows: seq<Notification>, n: Notification)
    requires DifferentIds(rows) && n in rows
    ensures LastOf(rows, n.id) == Some(n)
  {
    var i := IndexOf(rows, n);
    if i < |rows| - 1 {
      assert rows[..|rows| - 1][i] == n;
      LastOfIs(rows[..|rows| - 1], n);
    }
  }

  lemma {:induction false} LastOfNone(rows: seq<Notification>, id: Id)
    requires !Among(rows, id)
    ensures LastOf(rows, id) == None
  {
    if rows != [] {
      assert rows[|rows| - 1] in rows;
      assert forall n | n in rows[..|rows| - 1] :: n in rows;
      LastOfNone(rows[..|rows| - 1], id);
    }
  }

  /** The table after the upserted rows are written. */
  ghost predicate Wrote(db: Table, next: Table, upserted: seq<Notification>) {
    && (forall n | n in upserted :: n.id in next && next[n.id] == n)
    && (forall id | !Among(upserted, id) :: (id in next <==> id in db) && (id in db ==> next[id] == db[id]))
  }

  lemma ReplaceFollows(db: Table, placed: Table, next: Table, upserted: seq<Notification>, inPlace: seq<Notification>)
    requires Sorts(db, placed, upserted, inPlace) && DifferentIds(inPlace)
    requires Wrote(db, next, upserted) && forall n | n in upserted :: KeepsPlace(db, n)
    ensures OnlyRead(placed, next)
    ensures Follows(placed, next, (n: Notification) => LastOf(inPlace, n.id).GetOr(n))
  {
    forall id
      ensures id in placed <==> id in next
      ensures id in placed ==>
                && LastOf(inPlace, id).GetOr(placed[id]) == next[id]
                && next[id].id == placed[id].id && next[id].workspace == placed[id].workspace
                && next[id].updatedAt == placed[id].updatedAt && next[id].archivedAt == placed[id].archivedAt
    {
      if Among(inPlace, id) {
        var n :| n in inPlace && n.id == id;
        LastOfIs(inPlace, n);
        assert KeepsPlace(db, n);
      } else {
        LastOfNone(inPlace, id);
        if Among(upserted, id) {
          var n :| n in upserted && n.id == id;
        }
      }
    }
    assert placed.Keys == next.Keys;
  }

  lemma UpsertedAgrees(db: Table, next: Table, c: Cache, upserted: seq<Notification>)
    requires Keyed(db) && Agrees(db, c) && c.inFlight == map[]
    requires DifferentIds(upserted) && forall n | n in upserted :: KeepsPlace(db, n)
    requires Wrote(db, next, upserted)
    ensures var p := UpsertAll(c, upserted);
            Agrees(next, ReplaceInPlace(p.cache, p.inPlace)) && p.cache.inFlight == map[]
  {
    var p := UpsertAll(c, upserted);
    var placed := Placed(db, c, upserted);
    UpsertAllAgrees(db, c, upserted);
    ReplaceFollows(db, placed, next, upserted, p.inPlace);
    MapAgrees(placed, next, p.cache, (n: Notification) => LastOf(p.inPlace, n.id).GetOr(n));
  }

  lemma ReadAllAgrees(db: Table, c: Cache, rule: ReadAllUpdate)
    requires Keyed(db) && Agrees(db, c) && c.inFlight == map[]
    ensures Agrees(Apply(db, ReadAll(rule.workspace, rule.before, rule.readAt)), ReadAllInPlace(c, rule))
  {
    var next := Apply(db, ReadAll(rule.workspace, rule.before, rule.readAt));
    MapAgrees(db, next, c, (n: Notification) => ReadAllOne(c.inFlight, rule, n));
  }

  // ---- Runs ----

  /** A change at the server and what is pushed about it: the rows it names, in any order, and the counts. */
  datatype Round = Round(change: Change, rows: seq<Notification>, summary: Summary)

  /** The ids whose rows are sent. */
  function Named(change: Change): set<Id> {
    match change
    case Create(id, _, _) => {id}
    case Read(ids, _) => ids
    case MarkUnread(ids) => ids
    case Archive(id, _) => {id}
    case Unarchive(id) => {id}
    case ReadAll(_, _, _) => {}
  }

  /** The counts the server sends: of the account and of the workspaces the user is a member of. */
  ghost predicate CountsAre(members: set<Id>, db: Table, s: Summary) {
    && s.account == CountOf(db, None)
    && forall w | w in members :: Counted(s, Some(w)) == CountOf(db, Some(w))
  }

  ghost predicate Honest(members: set<Id>, db: Table, round: Round) {
    var next := Apply(db, round.change);
    && DifferentIds(round.rows)
    && (forall n :: n in round.rows <==> n.id in Named(round.change) && IsRow(next, n))
    && CountsAre(members, next, round.summary)
  }

  /** Nothing is sent when no row was found, or a read-all read none. */
  ghost predicate IsSent(db: Table, round: Round) {
    match round.change
    case ReadAll(workspace, before, _) => exists id :: id in db && ReadByAll(db[id], workspace, before)
    case _ => round.rows != []
  }

  function UpdateOf(round: Round): Update {
    match round.change
    case ReadAll(workspace, before, readAt) =>
      Update(round.rows, Some(ReadAllUpdate(workspace, before, readAt)), round.summary)
    case _ => Update(round.rows, None, round.summary)
  }

  ghost function Deliver(db: Table, c: Cache, round: Round): Cache {
    if IsSent(db, round) then Receive(c, UpdateOf(round)) else c
  }

  lemma NamedWritten(members: set<Id>, db: Table, round: Round)
    requires Keyed(db) && Honest(members, db, round) && !round.change.ReadAll?
    ensures Wrote(db, Apply(db, round.change), round.rows)
    ensures forall n | n in round.rows :: KeepsPlace(db, n)
  {
    var next := Apply(db, round.change);
    ApplyKeepsKeys(db, round.change);
    forall id | !Among(round.rows, id)
      ensures (id in next <==> id in db) && (id in db ==> next[id] == db[id])
    {
      if id in next {
        assert IsRow(next, next[id]);
        assert next[id] in round.rows <==> id in Named(round.change);
      }
    }
  }

  lemma UnsentUnchanged(members: set<Id>, db: Table, round: Round)
    requires Keyed(db) && Honest(members, db, round) && !IsSent(db, round)
    ensures Apply(db, round.change) == db
  {
    var next := Apply(db, round.change);
    if !round.change.ReadAll? {
      NamedWritten(members, db, round);
      assert forall id :: !Among(round.rows, id);
    }
  }

  /** A delivered change keeps the cache in agreement with the server, and its counts are the server's. */
  lemma DeliverAgrees(members: set<Id>, db: Table, c: Cache, round: Round)
    requires Keyed(db) && Agrees(db, c) && c.inFlight == map[]
    requires Honest(members, db, round)
    ensures var next := Apply(db, round.change);
            var d := Deliver(db, c, round);
            Keyed(next) && Agrees(next, d) && d.inFlight == map[]
    ensures IsSent(db, round) ==> Deliver(db, c, round).summary == Some(round.summary)
    ensures !IsSent(db, round) ==> Deliver(db, c, round) == c && Apply(db, round.change) == db
  {
    var next := Apply(db, round.change);
    ApplyKeepsKeys(db, round.change);
    if !IsSent(db, round) {
      UnsentUnchanged(members, db, round);
    } else if round.change.ReadAll? {
      assert forall n :: n !in round.rows;
      var rule := UpdateOf(round).readAll.value;
      UpsertedAgrees(db, db, c, round.rows);
      var p := UpsertAll(c, round.rows);
      var replaced := ReplaceInPlace(p.cache, p.inPlace);
      ReadAllAgrees(db, replaced, rule);
      assert next == Apply(db, ReadAll(rule.workspace, rule.before, rule.readAt));
      assert Deliver(db, c, round) == ReceiveSummary(ReadAllInPlace(replaced, rule), round.summary);
    } else {
      NamedWritten(members, db, round);
      UpsertedAgrees(db, next, c, round.rows);
    }
  }

  ghost predicate AllHonest(members: set<Id>, db: Table, rounds: seq<Round>)
    decreases |rounds|
  {
    rounds != [] ==> Honest(members, db, rounds[0]) && AllHonest(members, Apply(db, rounds[0].change), rounds[1..])
  }

  function ServerAfter(db: Table, rounds: seq<Round>): Table
    decreases |rounds|
  {
    if rounds == [] then db else ServerAfter(Apply(db, rounds[0].change), rounds[1..])
  }

  ghost function CacheAfter(db: Table, c: Cache, rounds: seq<Round>): Cache
    decreases |rounds|
  {
    if rounds == [] then c
    else CacheAfter(Apply(db, rounds[0].change), Deliver(db, c, rounds[0]), rounds[1..])
  }

  /** After any run of delivered changes the cache agrees with the server, counts included. */
  lemma {:induction false} RunAgrees(members: set<Id>, db: Table, c: Cache, rounds: seq<Round>)
    requires Keyed(db) && Agrees(db, c) && c.inFlight == map[]
    requires c.summary.Some? ==> CountsAre(members, db, c.summary.value)
    requires AllHonest(members, db, rounds)
    ensures var (end, d) := (ServerAfter(db, rounds), CacheAfter(db, c, rounds));
            && Keyed(end) && Agrees(end, d) && d.inFlight == map[]
            && (d.summary.Some? ==> CountsAre(members, end, d.summary.value))
    decreases |rounds|
  {
    if rounds != [] {
      DeliverAgrees(members, db, c, rounds[0]);
      RunAgrees(members, Apply(db, rounds[0].change), Deliver(db, c, rounds[0]), rounds[1..]);
    }
  }

  // ---- What is shown ----

  /** The workspace's own rows, in their order. */
  function Own(rows: seq<Notification>, workspace: Id): seq<Notification> {
    Filter(rows, (n: Notification) => n.workspace == Some(workspace))
  }

  lemma {:induction false} FilterSorted(view: View, rows: seq<Notification>, keep: Notification -> bool)
    requires Sorted(view, rows)
    ensures Sorted(view, Filter(rows, keep))
  {
    if rows != [] {
      FilterSorted(view, rows[1..], keep);
      var rest := Filter(rows[1..], keep);
      forall j | 0 <= j < |rest| ensures ComesBefore(view, rows[0], rest[j]) {
        assert rest[j] in rest;
        var k := IndexOf(rows[1..], rest[j]);
        assert rows[k + 1] == rest[j];
      }
    }
  }

  /** A complete All or Archived list that agrees shows the workspace's own rows as the server's tab does, row for
      row, in order. */
  lemma AgreeingListIsTab(db: Table, list: List)
    requires Keyed(db) && ListAgrees(db, list) && Complete(list.pages) && !list.view.Unread?
    ensures Own(Rows(list), list.workspace) == Own(Tab(db, list.workspace, list.view), list.workspace)
  {
    var keep := (n: Notification) => n.workspace == Some(list.workspace);
    var tab := Tab(db, list.workspace, list.view);
    var all := set n | n in TabSet(db, list.workspace, list.view) && keep(n);
    FilterSorted(list.view, Rows(list), keep);
    FilterSorted(list.view, tab, keep);
    forall n ensures n in Filter(Rows(list), keep) <==> n in all {
    }
    ListsUnique(list.view, Filter(Rows(list), keep), Filter(tab, keep), all);
  }

  /** The list claim over whole runs. */
  lemma ListsShowTabs(members: set<Id>, db: Table, c: Cache, rounds: seq<Round>, i: nat)
    requires Keyed(db) && Agrees(db, c) && c.inFlight == map[]
    requires c.summary.Some? ==> CountsAre(members, db, c.summary.value)
    requires AllHonest(members, db, rounds)
    requires i < |CacheAfter(db, c, rounds).lists|
    ensures var list := CacheAfter(db, c, rounds).lists[i];
            Complete(list.pages) && !list.view.Unread? ==>
              Own(Rows(list), list.workspace)
              == Own(Tab(ServerAfter(db, rounds), list.workspace, list.view), list.workspace)
  {
    RunAgrees(members, db, c, rounds);
    var list := CacheAfter(db, c, rounds).lists[i];
    assert ListAgrees(ServerAfter(db, rounds), list);
    if Complete(list.pages) && !list.view.Unread? {
      AgreeingListIsTab(ServerAfter(db, rounds), list);
    }
  }

  /** A list loaded from the server, whole or in part, agrees with it. */
  lemma LoadedAgrees(db: Table, list: List)
    requires Keyed(db) && ListLoaded(db, list)
    ensures ListAgrees(db, list)
  {
    var tab := Tab(db, list.workspace, list.view);
    var rows := Rows(list);
    assert forall i | 0 <= i < |rows| :: rows[i] == tab[i] && tab[i] in tab;
    assert forall id | id in db && InTab(db, list.workspace, list.view, db[id]) :: db[id] in tab;
  }

  // ---- An arrival ----

  /** The list is one a notification is placed in. */
  predicate Takes(list: List, n: Notification) {
    n.workspace == Some(list.workspace) || n.workspace.None?
  }

  lemma PlacedIsShown(list: List, n: Notification)
    requires Takes(list, n) && Complete(list.pages)
    ensures n in Rows(PlaceInList(list, n, VIEWS)) <==> BelongsTo(list.view, n)
  {
    PlaceJoins(list.view, list.pages, n);
    InsertKeeps(list.view, Without(Rows(list), n.id), n);
  }

  /** A notification that is new to the cache, or archived or brought back elsewhere, is shown from its update on
      in exactly the complete lists it belongs to, Unread included, and in the pinned groups exactly when it is
      account-level and unread. */
  lemma ArrivalIsShown(c: Cache, n: Notification, summary: Summary)
    requires n.id !in c.inFlight
    requires Cached(c, n.id).Some? ==> Cached(c, n.id).value.archivedAt != n.archivedAt
    ensures var d := Receive(c, Update([n], None, summary));
            && |d.lists| == |c.lists| && |d.pinned| == |c.pinned|
            && (forall i | 0 <= i < |c.lists| && Takes(c.lists[i], n) && Complete(c.lists[i].pages) ::
                  n in Rows(d.lists[i]) <==> BelongsTo(c.lists[i].view, n))
            && (forall i | 0 <= i < |c.pinned| :: n in d.pinned[i].rows <==> n.workspace.None? && IsUnread(n))
  {
    var placed := PlaceInLists(PlaceInPinned(c, n), n, VIEWS);
    assert [n][..0] == [] && UpsertAll(c, []) == Progress(c, []);
    assert UpsertAll(c, [n]) == Progress(placed, []);
    NothingReplaced(placed);
    forall i | 0 <= i < |c.lists| && Takes(c.lists[i], n) && Complete(c.lists[i].pages)
      ensures n in Rows(placed.lists[i]) <==> BelongsTo(c.lists[i].view, n)
    {
      PlacedIsShown(c.lists[i], n);
    }
  }

  lemma NothingReplaced(c: Cache)
    ensures ReplaceInPlace(c, []) == c
  {
    var f := (n: Notification) => LastOf([], n.id).GetOr(n);
    forall i | 0 <= i < |c.lists| ensures MapList(c.lists[i], f) == c.lists[i] {
      SamePages(c.lists[i].pages, f);
    }
    assert MapCopies(c, f).lists == c.lists;
    assert forall i | 0 <= i < |c.pinned| :: MapRows(c.pinned[i].rows, f) == c.pinned[i].rows;
    assert MapCopies(c, f).pinned == c.pinned;
  }

  lemma {:induction false} SamePages(pages: seq<Part>, f: Notification -> Notification)
    requires forall n :: f(n) == n
    ensures MapPages(pages, f) == pages
  {
    if pages != [] {
      SamePages(pages[1..], f);
      assert MapRows(pages[0].rows, f) == pages[0].rows;
      assert pages == [pages[0]] + pages[1..];
    }
  }
}
