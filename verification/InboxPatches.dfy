/** Optimistic patches: the cache goes to what the server's rows and counts will be. */
module InboxPatches {
  import opened Base
  import opened Notifications
  import opened Inbox
  import opened InboxFlight
  import opened InboxPrefix
  import opened InboxSync

  // ---- The server's rows after the change ----

  function ReadRows(db: Table, ids: seq<Id>, readAt: Option<Time>): Table {
    map id | id in db :: ReadPatch(ids, readAt, db[id])
  }

  function ArchivedRow(db: Table, id: Id, archivedAt: Option<Time>): Table {
    if id in db then db[id := ArchivePatch(db[id], archivedAt)] else db
  }

  /** When the patch writes exactly what the server will. */
  lemma ReadIsServers(db: Table, ids: seq<Id>, now: Time)
    requires Keyed(db)
    ensures Apply(db, Read(Elements(ids), now)) == ReadRows(db, ids, Some(now))
       <==> forall id | id in ids && id in db :: db[id].readAt.GetOr(now) == now
    ensures Apply(db, MarkUnread(Elements(ids))) == ReadRows(db, ids, None)
  {
    var server, patched := Apply(db, Read(Elements(ids), now)), ReadRows(db, ids, Some(now));
    assert forall id | id in db :: server[id] == patched[id] <==> (id in ids ==> db[id].readAt.GetOr(now) == now);
    if forall id | id in ids && id in db :: db[id].readAt.GetOr(now) == now {
      assert server == patched;
    }
  }

  lemma ArchiveIsServers(db: Table, id: Id, now: Time)
    requires Keyed(db)
    ensures Apply(db, Archive(id, now)) == ArchivedRow(db, id, Some(now))
       <==> (id in db ==> db[id].archivedAt.GetOr(now) == now)
    ensures Apply(db, Unarchive(id)) == ArchivedRow(db, id, None)
  {
    var server, patched := Apply(db, Archive(id, now)), ArchivedRow(db, id, Some(now));
    assert forall other | other in db && other != id :: server[other] == patched[other];
    if id in db {
      assert server[id] == patched[id] <==> db[id].archivedAt.GetOr(now) == now;
    }
    if id in db ==> db[id].archivedAt.GetOr(now) == now {
      assert server == patched;
    }
  }

  // ---- The rows ----

  lemma PlaceRowAgrees(db: Table, list: List, n: Notification, views: set<View>)
    requires Keyed(db) && ListAgrees(db, list) && IsRow(db, n)
    ensures ListAgrees(db, PlaceInList(list, n, views))
  {
    assert db[n.id := n] == db;
    if (n.workspace == Some(list.workspace) || n.workspace.None?) && list.view in views {
      PlaceJoins(list.view, list.pages, n);
      PlaceRowsAgrees(db, list.workspace, list.view, Rows(list), Complete(list.pages), n);
    }
  }

  ghost predicate ListsAgree(db: Table, c: Cache) {
    forall i | 0 <= i < |c.lists| :: ListAgrees(db, c.lists[i])
  }

  lemma {:induction false} PlaceAllAgrees(db: Table, c: Cache, rows: seq<Notification>, views: set<View>)
    requires Keyed(db) && ListsAgree(db, c) && forall n | n in rows :: IsRow(db, n)
    ensures ListsAgree(db, PlaceAll(c, rows, views))
  {
    if rows != [] {
      var rest, n := rows[..|rows| - 1], rows[|rows| - 1];
      PlaceAllAgrees(db, c, rest, views);
      var before := PlaceAll(c, rest, views);
      forall i | 0 <= i < |before.lists| ensures ListAgrees(db, PlaceInList(before.lists[i], n, views)) {
        PlaceRowAgrees(db, before.lists[i], n, views);
      }
    }
  }

  lemma PatchedGroupAgrees(db: Table, group: Group, ids: seq<Id>, readAt: Option<Time>)
    requires Keyed(db) && GroupAgrees(db, group)
    ensures GroupAgrees(ReadRows(db, ids, readAt), group.(rows := Staying(group.view, group.rows, ids, readAt)))
    ensures forall n | n in Moving(group.view, group.rows, ids, readAt) :: IsRow(ReadRows(db, ids, readAt), n)
  {
  }

  lemma {:induction false} PatchGroupsAgrees(db: Table, c: Cache, ids: seq<Id>, readAt: Option<Time>, k: nat)
    requires Keyed(db) && k <= |c.pinned|
    requires ListsAgree(ReadRows(db, ids, readAt), c)
    requires forall i | 0 <= i < |c.pinned| :: GroupAgrees(db, c.pinned[i])
    ensures var next := ReadRows(db, ids, readAt);
            var d := PatchGroups(c, ids, readAt, k);
            ListsAgree(next, d) && forall i | 0 <= i < k :: GroupAgrees(next, d.pinned[i])
  {
    if k > 0 {
      PatchGroupsAgrees(db, c, ids, readAt, k - 1);
      var next := ReadRows(db, ids, readAt);
      var before := PatchGroups(c, ids, readAt, k - 1);
      var group := c.pinned[k - 1];
      var stays := group.(rows := Staying(group.view, group.rows, ids, readAt));
      var moving := Moving(group.view, group.rows, ids, readAt);
      PatchedGroupAgrees(db, group, ids, readAt);
      var left := before.(pinned := before.pinned[k - 1 := stays]);
      assert ListsAgree(next, left) by { assert left.lists == before.lists; }
      PlaceAllAgrees(next, left, moving, {All});
      PlaceAllKeepsRest(left, moving, {All});
      assert PatchGroups(c, ids, readAt, k) == PlaceAll(left, moving, {All});
    }
  }

  /** Reading or unreading: the cached copies become the rows the server will have. */
  lemma PatchReadAgrees(db: Table, c: Cache, ids: seq<Id>, readAt: Option<Time>)
    requires Keyed(db) && Agrees(db, c)
    ensures Keyed(ReadRows(db, ids, readAt)) && Agrees(ReadRows(db, ids, readAt), PatchRead(c, ids, readAt))
  {
    var next := ReadRows(db, ids, readAt);
    var f := (n: Notification) => ReadPatch(ids, readAt, n);
    MapAgrees(db, next, c, f);
    assert forall i | 0 <= i < |c.lists| :: MapCopies(c, f).lists[i] == MapList(c.lists[i], f);
    var listed := MapLists(PatchSummary(c, ReadEdits(c, ids, readAt)), f);
    assert listed.lists == MapCopies(c, f).lists && listed.pinned == c.pinned;
    PatchGroupsAgrees(db, listed, ids, readAt, |listed.pinned|);
  }

  // ---- Pinned notifications that are read ----

  ghost predicate ShownWhole(c: Cache, n: Notification) {
    forall i | 0 <= i < |c.lists| && c.lists[i].view.All? && Complete(c.lists[i].pages) :: n in Rows(c.lists[i])
  }

  lemma PlaceInListKeeps(db: Table, list: List, m: Notification, n: Notification)
    requires IsRow(db, m) && IsRow(db, n) && n.workspace.None? && BelongsTo(All, n)
    requires list.view.All? && Complete(list.pages) && (n in Rows(list) || m == n)
    ensures n in Rows(PlaceInList(list, m, {All})) && Complete(PlaceInList(list, m, {All}).pages)
  {
    PlaceJoins(list.view, list.pages, m);
    InsertKeeps(list.view, Without(Rows(list), m.id), m);
  }

  lemma PlaceInListComplete(list: List, m: Notification, views: set<View>)
    ensures Complete(PlaceInList(list, m, views).pages) == Complete(list.pages)
    ensures PlaceInList(list, m, views).view == list.view
  {
    PlaceJoins(list.view, list.pages, m);
  }

  lemma {:induction false} PlaceAllShows(db: Table, c: Cache, rows: seq<Notification>, n: Notification)
    requires forall m | m in rows :: IsRow(db, m)
    requires IsRow(db, n) && n.workspace.None? && BelongsTo(All, n)
    requires n in rows || ShownWhole(c, n)
    ensures ShownWhole(PlaceAll(c, rows, {All}), n)
  {
    if rows != [] {
      var rest, m := rows[..|rows| - 1], rows[|rows| - 1];
      assert rows == rest + [m];
      var before := PlaceAll(c, rest, {All});
      if n in rest || ShownWhole(c, n) { PlaceAllShows(db, c, rest, n); }
      forall i | 0 <= i < |before.lists| && before.lists[i].view.All? && Complete(PlaceInList(before.lists[i], m,
          {All}).pages)
        ensures n in Rows(PlaceInList(before.lists[i], m, {All}))
      {
        PlaceInListComplete(before.lists[i], m, {All});
        PlaceInListKeeps(db, before.lists[i], m, n);
      }
    }
  }

  lemma {:induction false} MovingHas(view: View, rows: seq<Notification>, ids: seq<Id>, readAt: Option<Time>,
                                     n: Notification)
    requires n in rows && Leaves(view, ids, readAt, n)
    ensures n.(readAt := readAt) in Moving(view, rows, ids, readAt)
  {
    var rest := rows[..|rows| - 1];
    assert rows == rest + [rows[|rows| - 1]];
    if n != rows[|rows| - 1] { MovingHas(view, rest, ids, readAt, n); }
  }

  lemma {:induction false} StayingLacks(view: View, rows: seq<Notification>, ids: seq<Id>, readAt: Option<Time>,
                                        n: Notification)
    requires Leaves(view, ids, readAt, n) && forall m | m in rows && m.id == n.id :: m == n
    ensures forall m | m in Staying(view, rows, ids, readAt) :: m.id != n.id
  {
    if rows != [] {
      assert rows == rows[..|rows| - 1] + [rows[|rows| - 1]];
      StayingLacks(view, rows[..|rows| - 1], ids, readAt, n);
    }
  }

  lemma {:induction false} PatchGroupsMoves(db: Table, c: Cache, ids: seq<Id>, readAt: Option<Time>, k: nat, g: nat,
                                            n: Notification)
    requires Keyed(db) && g < k <= |c.pinned| && forall i | 0 <= i < |c.pinned| :: GroupAgrees(db, c.pinned[i])
    requires n in c.pinned[g].rows && Leaves(c.pinned[g].view, ids, readAt, n)
    requires n.workspace.None? && n.archivedAt.None?
    ensures var d := PatchGroups(c, ids, readAt, k);
            ShownWhole(d, n.(readAt := readAt)) && forall m | m in d.pinned[g].rows :: m.id != n.id
  {
    var next := ReadRows(db, ids, readAt);
    var read := n.(readAt := readAt);
    var before := PatchGroups(c, ids, readAt, k - 1);
    var group := c.pinned[k - 1];
    var stays := group.(rows := Staying(group.view, group.rows, ids, readAt));
    var moving := Moving(group.view, group.rows, ids, readAt);
    var left := before.(pinned := before.pinned[k - 1 := stays]);
    assert GroupAgrees(db, c.pinned[g]) && IsRow(db, n) && IsRow(next, read);
    PatchedGroupAgrees(db, group, ids, readAt);
    if g < k - 1 {
      PatchGroupsMoves(db, c, ids, readAt, k - 1, g, n);
      assert ShownWhole(left, read);
    } else {
      MovingHas(group.view, group.rows, ids, readAt, n);
      StayingLacks(group.view, group.rows, ids, readAt, n);
    }
    PlaceAllShows(next, left, moving, read);
    PlaceAllKeepsRest(left, moving, {All});
  }

  /** Read in the All tab, a pinned notification is gone from that group and is in every complete All list. */
  lemma PinnedReadMoves(db: Table, c: Cache, ids: seq<Id>, readAt: Option<Time>, g: nat, n: Notification)
    requires Keyed(db) && Agrees(db, c) && g < |c.pinned| && c.pinned[g].view.All?
    requires n in c.pinned[g].rows && n.id in ids && readAt.Some?
    requires n.archivedAt.None?
    ensures var d := PatchRead(c, ids, readAt);
            ShownWhole(d, n.(readAt := readAt)) && g < |d.pinned| && forall m | m in d.pinned[g].rows :: m.id != n.id
  {
    var listed := MapLists(PatchSummary(c, ReadEdits(c, ids, readAt)), (n: Notification) => ReadPatch(ids, readAt, n));
    assert GroupAgrees(db, c.pinned[g]);
    PatchGroupsMoves(db, listed, ids, readAt, |listed.pinned|, g, n);
  }

  /** In the other tabs a pinned notification stays where it is. */
  lemma {:induction false} PinnedReadStays(view: View, rows: seq<Notification>, ids: seq<Id>, readAt: Option<Time>)
    requires !view.All?
    ensures Staying(view, rows, ids, readAt) == MapRows(rows, (n: Notification) => ReadPatch(ids, readAt, n))
    ensures Moving(view, rows, ids, readAt) == []
  {
    if rows != [] {
      PinnedReadStays(view, rows[..|rows| - 1], ids, readAt);
    }
  }

  /** Archiving or bringing back a cached notification: likewise. */
  lemma PatchArchiveAgrees(db: Table, c: Cache, n: Notification, archivedAt: Option<Time>)
    requires Keyed(db) && Agrees(db, c) && Cached(c, n.id).Some?
    ensures var next := ArchivedRow(db, n.id, archivedAt);
            Keyed(next) && Agrees(next, PatchArchive(c, n, archivedAt))
  {
    CachedIsRow(db, c, n.id);
    var patched := ArchivePatch(db[n.id], archivedAt);
    var next := ArchivedRow(db, n.id, archivedAt);
    assert next == db[patched.id := patched];
    forall i | 0 <= i < |c.lists| ensures ListAgrees(next, PlaceInList(c.lists[i], patched, VIEWS)) {
      PlaceInListAgrees(db, c.lists[i], patched);
    }
    forall i | 0 <= i < |c.pinned|
      ensures GroupAgrees(next, c.pinned[i].(rows := Without(c.pinned[i].rows, patched.id)))
    {
      assert GroupAgrees(db, c.pinned[i]);
    }
  }

  // ---- The counts ----

  /** The cached notifications are of the account or of workspaces whose unread ones are counted. */
  ghost predicate WithinMembers(members: set<Id>, c: Cache) {
    forall id | Cached(c, id).Some? ::
      Cached(c, id).value.workspace.Some? ==> Cached(c, id).value.workspace.value in members
  }

  ghost predicate IsOf(members: set<Id>, workspace: Option<Id>) {
    workspace.Some? ==> workspace.value in members
  }

  lemma UnreadSplit(db: Table, id: Id, workspace: Option<Id>)
    requires id in db
    ensures CountOf(db, workspace)
         == |UnreadOf(db, workspace) - {id}| + if db[id].workspace == workspace && IsUnread(db[id]) then 1 else 0
  {
    var all, rest := UnreadOf(db, workspace), UnreadOf(db, workspace) - {id};
    if id in all {
      assert all == rest + {id};
    } else {
      assert all == rest;
    }
  }

  lemma UnreadAfter(db: Table, after: Notification, workspace: Option<Id>)
    requires Keyed(db) && after.id in db && db[after.id].workspace == after.workspace
    ensures CountOf(db[after.id := after], workspace)
         == CountOf(db, workspace) + if workspace == after.workspace then Delta(Edit(db[after.id], after)) else 0
  {
    var id := after.id;
    var next := db[id := after];
    UnreadSplit(db, id, workspace);
    UnreadSplit(next, id, workspace);
    assert UnreadOf(next, workspace) - {id} == UnreadOf(db, workspace) - {id};
  }

  /** One edit moves the counts as its row moves, and the floor at zero does not act. */
  lemma PatchCountIs(members: set<Id>, db: Table, s: Summary, after: Notification)
    requires Keyed(db) && CountsAre(members, db, s)
    requires after.id in db && db[after.id].workspace == after.workspace && IsOf(members, after.workspace)
    ensures CountsAre(members, db[after.id := after], PatchCount(s, Edit(db[after.id], after)))
    ensures Counted(s, after.workspace) + Delta(Edit(db[after.id], after)) >= 0
  {
    var e := Edit(db[after.id], after);
    var next := db[after.id := after];
    UnreadAfter(db, after, None);
    UnreadAfter(db, after, after.workspace);
    forall w | w in members
      ensures CountOf(next, Some(w)) == CountOf(db, Some(w)) + if Some(w) == after.workspace then Delta(e) else 0
    {
      UnreadAfter(db, after, Some(w));
    }
    assert Counted(s, after.workspace) == CountOf(db, after.workspace);
  }

  /** No count is cut off at zero. */
  ghost predicate NeverCut(s: Summary, edits: seq<Edit>) {
    edits != [] ==>
      var rest, e := edits[..|edits| - 1], edits[|edits| - 1];
      NeverCut(s, rest) && Counted(PatchCounts(s, rest), e.after.workspace) + Delta(e) >= 0
  }

  lemma ReadRowsOneMore(db: Table, rest: seq<Id>, id: Id, readAt: Option<Time>)
    requires Keyed(db) && id in db && id !in rest
    ensures ReadRows(db, rest + [id], readAt) == ReadRows(db, rest, readAt)[id := db[id].(readAt := readAt)]
    ensures ReadRows(db, rest, readAt)[id] == db[id]
    ensures Keyed(ReadRows(db, rest, readAt))
  {
  }

  lemma ReadEditsOneMore(members: set<Id>, db: Table, c: Cache, s: Summary, rest: seq<Id>, id: Id,
                         readAt: Option<Time>)
    requires Keyed(db) && Agrees(db, c) && WithinMembers(members, c)
    requires Cached(c, id).Some? && id !in rest
    requires var edits := ReadEdits(c, rest, readAt);
             CountsAre(members, ReadRows(db, rest, readAt), PatchCounts(s, edits)) && NeverCut(s, edits)
    ensures var edits := ReadEdits(c, rest + [id], readAt);
            CountsAre(members, ReadRows(db, rest + [id], readAt), PatchCounts(s, edits)) && NeverCut(s, edits)
  {
    CachedIsRow(db, c, id);
    ReadRowsOneMore(db, rest, id, readAt);
    var read, after := ReadRows(db, rest, readAt), db[id].(readAt := readAt);
    var before := ReadEdits(c, rest, readAt);
    PatchCountIs(members, read, PatchCounts(s, before), after);
    assert (rest + [id])[..|rest|] == rest;
    var edits := ReadEdits(c, rest + [id], readAt);
    assert edits == before + [Edit(db[id], after)];
    assert edits[..|edits| - 1] == before;
  }

  lemma LastIsNew(c: Cache, ids: seq<Id>)
    requires ids != [] && Distinct(ids) && forall id | id in ids :: Cached(c, id).Some?
    ensures var rest, id := ids[..|ids| - 1], ids[|ids| - 1];
            && Distinct(rest) && (forall other | other in rest :: Cached(c, other).Some?)
            && id !in rest && Cached(c, id).Some? && ids == rest + [id]
  {
    var rest, id := ids[..|ids| - 1], ids[|ids| - 1];
    assert forall i | 0 <= i < |rest| :: rest[i] == ids[i] && rest[i] in ids;
    assert id in ids;
  }

  lemma {:induction false} ReadEditsCount(members: set<Id>, db: Table, c: Cache, s: Summary, ids: seq<Id>,
                                          readAt: Option<Time>)
    requires Keyed(db) && Agrees(db, c) && WithinMembers(members, c) && CountsAre(members, db, s)
    requires Distinct(ids) && forall id | id in ids :: Cached(c, id).Some?
    ensures var edits := ReadEdits(c, ids, readAt);
            CountsAre(members, ReadRows(db, ids, readAt), PatchCounts(s, edits)) && NeverCut(s, edits)
  {
    if ids == [] {
      assert ReadRows(db, ids, readAt) == db;
    } else {
      var rest := ids[..|ids| - 1];
      LastIsNew(c, ids);
      ReadEditsCount(members, db, c, s, rest, readAt);
      ReadEditsOneMore(members, db, c, s, rest, ids[|ids| - 1], readAt);
    }
  }

  /** Reading or unreading distinct cached notifications conserves the counts. */
  lemma PatchReadCounts(members: set<Id>, db: Table, c: Cache, ids: seq<Id>, readAt: Option<Time>)
    requires Keyed(db) && Agrees(db, c) && WithinMembers(members, c)
    requires c.summary.Some? && CountsAre(members, db, c.summary.value)
    requires Distinct(ids) && forall id | id in ids :: Cached(c, id).Some?
    ensures var d := PatchRead(c, ids, readAt);
            d.summary.Some? && CountsAre(members, ReadRows(db, ids, readAt), d.summary.value)
    ensures NeverCut(c.summary.value, ReadEdits(c, ids, readAt))
  {
    ReadEditsCount(members, db, c, c.summary.value, ids, readAt);
    var listed := MapLists(PatchSummary(c, ReadEdits(c, ids, readAt)), (n: Notification) => ReadPatch(ids, readAt, n));
    PatchGroupsFlight(listed, ids, readAt, |listed.pinned|);
  }

  /** Archiving or bringing back a cached notification conserves the counts. */
  lemma PatchArchiveCounts(members: set<Id>, db: Table, c: Cache, n: Notification, archivedAt: Option<Time>)
    requires Keyed(db) && Agrees(db, c) && WithinMembers(members, c)
    requires c.summary.Some? && CountsAre(members, db, c.summary.value)
    requires Cached(c, n.id).Some?
    ensures var d := PatchArchive(c, n, archivedAt);
            d.summary.Some? && CountsAre(members, ArchivedRow(db, n.id, archivedAt), d.summary.value)
    ensures n.id in db && NeverCut(c.summary.value, [Edit(db[n.id], ArchivePatch(db[n.id], archivedAt))])
  {
    CachedIsRow(db, c, n.id);
    var after := ArchivePatch(db[n.id], archivedAt);
    PatchCountIs(members, db, c.summary.value, after);
    var edits := [Edit(db[n.id], after)];
    assert edits[..0] == [];
    assert PatchCounts(c.summary.value, edits) == PatchCount(c.summary.value, edits[0]);
  }

  // ---- Read-all ----

  /** One of `rows` that a read-all reads. */
  ghost predicate HasRead(rows: seq<Notification>, workspace: Id, before: Time, id: Id) {
    exists n :: n in rows && n.id == id && ReadByAll(n, workspace, before)
  }

  lemma {:induction false} AddReadIs(ids: seq<Id>, rows: seq<Notification>, workspace: Id, before: Time)
    requires Distinct(ids)
    ensures var added := AddRead(ids, rows, workspace, before);
            Distinct(added) && forall id :: id in added <==> id in ids || HasRead(rows, workspace, before, id)
  {
    if rows != [] {
      var rest, n := rows[..|rows| - 1], rows[|rows| - 1];
      AddReadIs(ids, rest, workspace, before);
      assert forall m :: m in rows <==> m in rest || m == n;
    }
  }

  /** Some copy the read-all looks at, in a list of the workspace or in a pinned group, is read by it. */
  ghost predicate Meets(c: Cache, workspace: Id, before: Time, id: Id) {
    || (exists i :: 0 <= i < |c.lists| && c.lists[i].workspace == workspace
                    && HasRead(Rows(c.lists[i]), workspace, before, id))
    || (exists i :: 0 <= i < |c.pinned| && HasRead(c.pinned[i].rows, workspace, before, id))
  }

  lemma {:induction false} ReadInListsIs(lists: seq<List>, workspace: Id, before: Time)
    ensures Distinct(ReadInLists(lists, workspace, before))
    ensures forall id :: id in ReadInLists(lists, workspace, before)
              <==> exists i :: 0 <= i < |lists| && lists[i].workspace == workspace
                               && HasRead(Rows(lists[i]), workspace, before, id)
  {
    if lists != [] {
      var rest, list := lists[..|lists| - 1], lists[|lists| - 1];
      ReadInListsIs(rest, workspace, before);
      AddReadIs(ReadInLists(rest, workspace, before), Rows(list), workspace, before);
      assert forall i | 0 <= i < |rest| :: rest[i] == lists[i];
    }
  }

  lemma {:induction false} ReadInGroupsIs(ids: seq<Id>, groups: seq<Group>, workspace: Id, before: Time)
    requires Distinct(ids)
    ensures Distinct(ReadInGroups(ids, groups, workspace, before))
    ensures forall id :: id in ReadInGroups(ids, groups, workspace, before)
              <==> id in ids || exists i :: 0 <= i < |groups| && HasRead(groups[i].rows, workspace, before, id)
  {
    if groups != [] {
      var rest, group := groups[..|groups| - 1], groups[|groups| - 1];
      ReadInGroupsIs(ids, rest, workspace, before);
      AddReadIs(ReadInGroups(ids, rest, workspace, before), group.rows, workspace, before);
      assert forall i | 0 <= i < |rest| :: rest[i] == groups[i];
    }
  }

  /** The ids a read-all collects: each loaded notification it meets, once. */
  lemma ReadAllIdsAre(c: Cache, workspace: Id, before: Time)
    ensures var ids := ReadAllIds(c, workspace, before);
            Distinct(ids) && forall id :: id in ids <==> Meets(c, workspace, before, id)
  {
    ReadInListsIs(c.lists, workspace, before);
    ReadInGroupsIs(ReadInLists(c.lists, workspace, before), c.pinned, workspace, before);
  }

  lemma MetIsCached(db: Table, c: Cache, workspace: Id, before: Time, id: Id)
    requires Agrees(db, c) && Meets(c, workspace, before, id)
    ensures Cached(c, id).Some? && id in db && ReadByAll(db[id], workspace, before)
  {
    if i :| 0 <= i < |c.lists| && c.lists[i].workspace == workspace
            && HasRead(Rows(c.lists[i]), workspace, before, id) {
      var n :| n in Rows(c.lists[i]) && n.id == id && ReadByAll(n, workspace, before);
      assert ListAgrees(db, c.lists[i]) && IsRow(db, n);
      InListCopies(c.lists, n);
      assert n in Copies(c);
    } else {
      var i :| 0 <= i < |c.pinned| && HasRead(c.pinned[i].rows, workspace, before, id);
      var n :| n in c.pinned[i].rows && n.id == id && ReadByAll(n, workspace, before);
      assert GroupAgrees(db, c.pinned[i]) && IsRow(db, n);
      InGroupCopies(c.pinned, n);
      assert n in Copies(c);
    }
  }

  lemma ReadAllIdsCached(db: Table, c: Cache, workspace: Id, before: Time)
    requires Agrees(db, c)
    ensures var ids := ReadAllIds(c, workspace, before);
            && Distinct(ids)
            && forall id | id in ids :: Cached(c, id).Some? && id in db && ReadByAll(db[id], workspace, before)
  {
    var ids := ReadAllIds(c, workspace, before);
    ReadAllIdsAre(c, workspace, before);
    forall id | id in ids ensures Cached(c, id).Some? && id in db && ReadByAll(db[id], workspace, before) {
      MetIsCached(db, c, workspace, before, id);
    }
  }

  lemma ReadIsReadAlls(db: Table, ids: seq<Id>, workspace: Id, before: Time, readAt: Time)
    requires Keyed(db) && forall id | id in ids :: id in db && ReadByAll(db[id], workspace, before)
    ensures forall id | id in ids ::
              ReadRows(db, ids, Some(readAt))[id] == Apply(db, ReadAll(workspace, before, readAt))[id]
  {
  }

  /** A read-all patches only what the server's read-all reads, as it does, and conserves the counts. */
  lemma PatchReadAllCounts(members: set<Id>, db: Table, c: Cache, workspace: Id, before: Time, readAt: Time)
    requires Keyed(db) && Agrees(db, c) && WithinMembers(members, c)
    requires c.summary.Some? && CountsAre(members, db, c.summary.value)
    ensures var next := ReadRows(db, ReadAllIds(c, workspace, before), Some(readAt));
            var d := PatchReadAll(c, workspace, before, readAt);
            Agrees(next, d) && d.summary.Some? && CountsAre(members, next, d.summary.value)
    ensures var ids := ReadAllIds(c, workspace, before);
            forall id | id in ids ::
              id in db && ReadRows(db, ids, Some(readAt))[id] == Apply(db, ReadAll(workspace, before, readAt))[id]
  {
    var ids := ReadAllIds(c, workspace, before);
    ReadAllIdsCached(db, c, workspace, before);
    ReadIsReadAlls(db, ids, workspace, before, readAt);
    PatchReadAgrees(db, c, ids, Some(readAt));
    PatchReadCounts(members, db, c, ids, Some(readAt));
  }

  // ---- A change of one's own, from the patch to its settling ----

  lemma {:induction false} AllSkipped(c: Cache, upserted: seq<Notification>)
    requires forall n | n in upserted :: n.id in c.inFlight
    ensures var p := UpsertAll(c, upserted);
            p.cache == c.(behind := p.cache.behind) && p.inPlace == []
  {
    if upserted != [] {
      var rest := upserted[..|upserted| - 1];
      assert upserted == rest + [upserted[|upserted| - 1]];
      AllSkipped(c, rest);
    }
  }

  /** What is pushed about held notifications alone, and their release, leave every list as it is; the pinned groups
      are what the server answers if the release fetches them, and else stay too. */
  lemma SettlingKeepsLists(c: Cache, update: Update, ids: seq<Id>, fetched: Fetched)
    requires update.readAll.None? && forall n | n in update.upserted :: n.id in c.inFlight
    ensures var r := Receive(c, update);
            var d := Release(r, ids, fetched);
            && d.lists == c.lists && r.pinned == c.pinned && r.inFlight == c.inFlight
            && r.behind == (c.behind || c.inFlight != map[])
  {
    AllSkipped(c, update.upserted);
    NothingReplaced(UpsertAll(c, update.upserted).cache);
    SummaryWaits(c, update);
  }

  /** The list has no other copy of a pushed row than that row, and has it if it is to show it. */
  ghost predicate IsCurrent(list: List, upserted: seq<Notification>) {
    && (forall m, n | m in Rows(list) && n in upserted && m.id == n.id :: m == n)
    && (!list.view.Unread? && Complete(list.pages) ==>
          forall n | n in upserted && n.workspace == Some(list.workspace) && Keeps(list.view, n) :: n in Rows(list))
  }

  lemma ListSettles(shown: Table, next: Table, list: List, upserted: seq<Notification>)
    requires ListAgrees(shown, list) && Wrote(shown, next, upserted)
    ensures ListAgrees(next, list) <==> IsCurrent(list, upserted)
  {
    if IsCurrent(list, upserted) {
      forall m | m in Rows(list) ensures IsRow(next, m) {
        assert IsRow(shown, m);
        if Among(upserted, m.id) {
          var n :| n in upserted && n.id == m.id;
          assert m == n;
        }
      }
      if !list.view.Unread? && Complete(list.pages) {
        forall id | id in next && next[id].workspace == Some(list.workspace) && Keeps(list.view, next[id])
          ensures next[id] in Rows(list)
        {
          if Among(upserted, id) {
            var n :| n in upserted && n.id == id;
          }
        }
      }
    }
    if ListAgrees(next, list) {
      forall m, n | m in Rows(list) && n in upserted && m.id == n.id ensures m == n {
        assert IsRow(next, m);
      }
    }
  }

  /** Every copy in a list of a pushed row is that row. */
  ghost predicate CopiesCurrent(c: Cache, upserted: seq<Notification>) {
    forall i, m, n | 0 <= i < |c.lists| && m in Rows(c.lists[i]) && n in upserted && m.id == n.id :: m == n
  }

  /** A pushed row that is cached and whose copies are current is where it is to be. */
  lemma CachedIsCurrent(shown: Table, c: Cache, upserted: seq<Notification>, i: nat)
    requires Agrees(shown, c) && CopiesCurrent(c, upserted) && i < |c.lists|
    requires forall n | n in upserted :: Cached(c, n.id).Some? && KeepsPlace(shown, n)
    ensures IsCurrent(c.lists[i], upserted)
  {
    var list := c.lists[i];
    assert ListAgrees(shown, list);
    if !list.view.Unread? && Complete(list.pages) {
      forall n | n in upserted && n.workspace == Some(list.workspace) && Keeps(list.view, n) ensures n in Rows(list) {
        assert KeepsPlace(shown, n);
        var m := Cached(c, n.id).value;
        CachedIsRow(shown, c, n.id);
        InListCopies(c.lists, m);
        InGroupCopies(c.pinned, m);
        forall k | 0 <= k < |c.pinned| ensures m !in c.pinned[k].rows {
          assert GroupAgrees(shown, c.pinned[k]);
        }
        var k :| 0 <= k < |c.lists| && m in Rows(c.lists[k]);
        assert m == n && shown[n.id] == n;
      }
    }
  }

  /** What the server answers is its account-level unread rows, and its counts. */
  ghost predicate Answers(members: set<Id>, db: Table, fetched: Fetched) {
    Keyed(db) && Lists(All, fetched.pinned, PinnedSet(db)) && CountsAre(members, db, fetched.summary)
  }

  lemma RefreshAgrees(members: set<Id>, db: Table, c: Cache, fetched: Fetched)
    requires ListsAgree(db, c) && Answers(members, db, fetched)
    ensures Agrees(db, Refresh(c, fetched))
  {
    forall i | 0 <= i < |c.pinned| ensures GroupAgrees(db, c.pinned[i].(rows := fetched.pinned)) {
      assert forall n | n in fetched.pinned :: n in PinnedSet(db);
    }
  }

  /** When it has settled, each list agrees with the server if and only if it is current with what was pushed meanwhile
      about the held notifications; and with that the whole cache does, once the release fetches the pinned ones. */
  lemma SettlesExactly(members: set<Id>, shown: Table, next: Table, c: Cache, update: Update, ids: seq<Id>,
                       fetched: Fetched)
    requires Agrees(shown, c) && Wrote(shown, next, update.upserted) && update.readAll.None?
    requires Answers(members, next, fetched) && forall n | n in update.upserted :: n.id in c.inFlight
    ensures var d := Release(Receive(c, update), ids, fetched);
            && |d.lists| == |c.lists|
            && (forall i | 0 <= i < |c.lists| ::
                  ListAgrees(next, d.lists[i]) <==> IsCurrent(c.lists[i], update.upserted))
            && (Settles(Receive(c, update), ids) ==>
                  (Agrees(next, d) <==> forall i | 0 <= i < |c.lists| :: IsCurrent(c.lists[i], update.upserted)))
  {
    var r := Receive(c, update);
    SettlingKeepsLists(c, update, ids, fetched);
    forall i | 0 <= i < |c.lists| ensures ListAgrees(next, c.lists[i]) <==> IsCurrent(c.lists[i], update.upserted) {
      assert ListAgrees(shown, c.lists[i]);
      ListSettles(shown, next, c.lists[i], update.upserted);
    }
    if Settles(r, ids) && ListsAgree(next, c) {
      RefreshAgrees(members, next, r.(inFlight := map[], behind := false, refetches := r.refetches + 1), fetched);
    }
  }

  lemma CopiesDecide(shown: Table, c: Cache, upserted: seq<Notification>)
    requires Agrees(shown, c)
    requires forall n | n in upserted :: Cached(c, n.id).Some? && KeepsPlace(shown, n)
    ensures (forall i | 0 <= i < |c.lists| :: IsCurrent(c.lists[i], upserted)) <==> CopiesCurrent(c, upserted)
  {
    if CopiesCurrent(c, upserted) {
      forall i | 0 <= i < |c.lists| ensures IsCurrent(c.lists[i], upserted) {
        CachedIsCurrent(shown, c, upserted, i);
      }
    }
  }

  /** For rows that are cached: if and only if every copy of one in a list is the row that was pushed. */
  lemma CachedSettles(members: set<Id>, shown: Table, next: Table, c: Cache, update: Update, ids: seq<Id>,
                      fetched: Fetched)
    requires Agrees(shown, c) && Wrote(shown, next, update.upserted) && update.readAll.None?
    requires Answers(members, next, fetched) && forall n | n in update.upserted :: n.id in c.inFlight
    requires forall n | n in update.upserted :: Cached(c, n.id).Some? && KeepsPlace(shown, n)
    ensures ListsAgree(next, Release(Receive(c, update), ids, fetched)) <==> CopiesCurrent(c, update.upserted)
  {
    SettlesExactly(members, shown, next, c, update, ids, fetched);
    CopiesDecide(shown, c, update.upserted);
  }

  /** The lists' copies of the notification are the server's row. */
  ghost predicate ListedIsRow(db: Table, c: Cache, id: Id) {
    forall i, m | 0 <= i < |c.lists| && m in Rows(c.lists[i]) && m.id == id :: IsRow(db, m)
  }

  /** Over any events: a notification that stayed held shows in the lists, once it is released, what it showed before;
      so it shows the server's row exactly if that is the row its own patch left. */
  lemma ReleasedAsHeld(c: Cache, events: seq<Event>, ids: seq<Id>, fetched: Fetched, db: Table, id: Id)
    requires StaysHeld(c, events, id)
    ensures ListedIsRow(db, Release(AfterAll(c, events), ids, fetched), id) <==> ListedIsRow(db, c, id)
  {
    var d := AfterAll(c, events);
    HeldThroughout(c, events, id);
    forall i, m: Notification | 0 <= i < |c.lists| && m.id == id
      ensures m in Rows(c.lists[i]) <==> m in Rows(d.lists[i])
    {
      assert SameCopies(Rows(c.lists[i]), Rows(d.lists[i]), id);
      assert m in multiset(Rows(c.lists[i])) <==> m in multiset(Rows(d.lists[i]));
    }
  }

  // ---- A change that is never shown ----

  function Waiting(): Notification {
    Notification(0, Some(0), 1, None, None)
  }

  function WaitingHeld(): Cache {
    Cache([List(0, All, [Part([Waiting()], None)])], [], None, map[0 := 1], false, 0)
  }

  lemma WaitingShown()
    ensures Rows(WaitingHeld().lists[0]) == [Waiting()]
    ensures Agrees(map[0 := Waiting()], WaitingHeld())
  {
    var pages := [Part([Waiting()], None)];
    assert pages[1..] == [] && Joined(pages) == [Waiting()] + [] == [Waiting()];
  }

  lemma WaitingGone()
    ensures Tab(Apply(map[0 := Waiting()], Archive(0, 2)), 0, All) == []
  {
    TabIs(Apply(map[0 := Waiting()], Archive(0, 2)), 0, All, []);
  }

  /** While an unread notification is held, it is archived in another tab. After the release the All list still shows
      it, and the server's tab has it no longer. */
  lemma MissedArchive(update: Update, fetched: Fetched)
    requires update.upserted == [ArchivePatch(Waiting(), Some(2))] && update.readAll.None?
    ensures Agrees(map[0 := Waiting()], WaitingHeld())
    ensures var d := Release(Receive(WaitingHeld(), update), [0], fetched);
            |d.lists| == 1 && Rows(d.lists[0]) == [Waiting()]
    ensures Tab(Apply(map[0 := Waiting()], Archive(0, 2)), 0, All) == []
  {
    WaitingShown();
    WaitingGone();
    SettlingKeepsLists(WaitingHeld(), update, [0], fetched);
  }

  // ---- A change of one's own ----

  /** What was patched for held notifications, and settles, agrees with the server's rows after the patch; when nothing
      else is in flight, so do the counts. */
  lemma PatchedSettles(members: set<Id>, next: Table, p: Cache, update: Update, ids: seq<Id>, fetched: Fetched)
    requires Agrees(next, p) && update.readAll.None? && forall n | n in update.upserted :: n.id in p.inFlight
    requires Answers(members, next, fetched)
    ensures var d := Release(Receive(p, update), ids, fetched);
            && Agrees(next, d)
            && (p.inFlight != map[] && ReleaseAll(p.inFlight, ids) == map[] ==>
                  !d.behind && (d.summary.Some? ==> CountsAre(members, next, d.summary.value)))
  {
    var r := Receive(p, update);
    SettlingKeepsLists(p, update, ids, fetched);
    assert Agrees(next, r);
    if Settles(r, ids) {
      RefreshAgrees(members, next, r.(inFlight := map[], behind := false, refetches := r.refetches + 1), fetched);
    }
  }

  /** Reading or unreading, from the hold to the release: when the patch is what the server writes, the cache agrees
      with the server after it, and what is in flight is what was before. */
  lemma OwnReadSettles(members: set<Id>, db: Table, c: Cache, ids: seq<Id>, readAt: Option<Time>, update: Update,
                       held: multiset<Id>, fetched: Fetched)
    requires Keyed(db) && Agrees(db, c) && Tallies(c.inFlight, held)
    requires update.readAll.None? && forall n | n in update.upserted :: n.id in ids
    requires Answers(members, ReadRows(db, ids, readAt), fetched)
    ensures var d := Release(Receive(PatchRead(Hold(c, ids), ids, readAt), update), ids, fetched);
            && Agrees(ReadRows(db, ids, readAt), d) && d.inFlight == c.inFlight
            && (c.inFlight == map[] && ids != [] ==>
                  !d.behind && (d.summary.Some? ==> CountsAre(members, ReadRows(db, ids, readAt), d.summary.value)))
  {
    var h := Hold(c, ids);
    var p := PatchRead(h, ids, readAt);
    assert Agrees(db, h);
    PatchReadAgrees(db, h, ids, readAt);
    PatchFlight(h, ids, readAt);
    HoldTallies(c.inFlight, held, ids);
    assert forall id | id in ids :: id in p.inFlight;
    assert ids != [] ==> ids[0] in p.inFlight;
    HoldThenRelease(c.inFlight, held, ids, []);
    SummaryWaits(p, update);
    PatchedSettles(members, ReadRows(db, ids, readAt), p, update, ids, fetched);
  }

  /** Archiving or bringing back a cached notification: likewise. */
  lemma OwnArchiveSettles(members: set<Id>, db: Table, c: Cache, n: Notification, archivedAt: Option<Time>,
                          update: Update, held: multiset<Id>, fetched: Fetched)
    requires Keyed(db) && Agrees(db, c) && Tallies(c.inFlight, held) && Cached(c, n.id).Some?
    requires update.readAll.None? && forall m | m in update.upserted :: m.id == n.id
    requires Answers(members, ArchivedRow(db, n.id, archivedAt), fetched)
    ensures var d := Release(Receive(PatchArchive(Hold(c, [n.id]), n, archivedAt), update), [n.id], fetched);
            var next := ArchivedRow(db, n.id, archivedAt);
            && Agrees(next, d) && d.inFlight == c.inFlight
            && (c.inFlight == map[] ==> !d.behind && (d.summary.Some? ==> CountsAre(members, next, d.summary.value)))
  {
    var h := Hold(c, [n.id]);
    var p := PatchArchive(h, n, archivedAt);
    assert Agrees(db, h);
    PatchArchiveAgrees(db, h, n, archivedAt);
    HoldTallies(c.inFlight, held, [n.id]);
    assert n.id in [n.id] && n.id in p.inFlight;
    HoldThenRelease(c.inFlight, held, [n.id], []);
    SummaryWaits(p, update);
    PatchedSettles(members, ArchivedRow(db, n.id, archivedAt), p, update, [n.id], fetched);
  }
}
