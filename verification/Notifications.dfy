/** One user's notifications as the server keeps them: the Inbox tabs, the changes of rows, the unread
    counts. */
module Notifications {
  import opened Base

  datatype Notification = Notification(
    id: Id,
    workspace: Option<Id>,   // `None`: account-level
    updatedAt: Time,
    readAt: Option<Time>,
    archivedAt: Option<Time>)

  /** What the unread counts count. */
  predicate IsUnread(n: Notification) {
    n.readAt.None? && n.archivedAt.None?
  }

  type Table = map<Id, Notification>

  ghost predicate Keyed(db: Table) {
    forall id | id in db :: db[id].id == id
  }

  // ---- Tabs ----

  datatype View = Unread | All | Archived

  /** Which rows the tab keeps. */
  predicate Keeps(view: View, n: Notification) {
    match view
    case Unread => n.readAt.None? && n.archivedAt.None?
    case All => n.archivedAt.None?
    case Archived => n.archivedAt.Some?
  }

  /** Account-level rows join every workspace once they are read or archived. */
  predicate InWorkspace(n: Notification, workspace: Id) {
    n.workspace == Some(workspace) || (n.workspace.None? && (n.readAt.Some? || n.archivedAt.Some?))
  }

  /** The first part of the sort key; the second is the id. */
  function SortTime(view: View, n: Notification): Time {
    if view.Archived? then n.archivedAt.GetOr(n.updatedAt) else n.updatedAt
  }

  predicate Precedes(atA: Time, idA: Id, atB: Time, idB: Id) {
    atA > atB || (atA == atB && idA > idB)
  }

  /** `ORDER BY sort DESC, id DESC`. */
  predicate ComesBefore(view: View, a: Notification, b: Notification) {
    Precedes(SortTime(view, a), a.id, SortTime(view, b), b.id)
  }

  ghost predicate Sorted(view: View, rows: seq<Notification>) {
    forall i, j | 0 <= i < j < |rows| :: ComesBefore(view, rows[i], rows[j])
  }

  /** `rows` are the elements of `set`, in the order of the tab. */
  ghost predicate Lists(view: View, rows: seq<Notification>, all: set<Notification>) {
    Sorted(view, rows) && forall n :: n in rows <==> n in all
  }

  lemma {:induction false} ListsUnique(view: View, a: seq<Notification>, b: seq<Notification>, all: set<Notification>)
    requires Lists(view, a, all) && Lists(view, b, all)
    ensures a == b
    decreases |a|
  {
    ListsEmpty(view, a, all);
    ListsEmpty(view, b, all);
    if a != [] && b != [] {
      FirstBefore(view, a, b[0]);
      FirstBefore(view, b, a[0]);
      ListsTail(view, a, all);
      ListsTail(view, b, all);
      ListsUnique(view, a[1..], b[1..], all - {a[0]});
      assert a == [a[0]] + a[1..] && b == [b[0]] + b[1..];
    }
  }

  lemma FirstBefore(view: View, rows: seq<Notification>, n: Notification)
    requires Sorted(view, rows) && n in rows
    ensures n == rows[0] || ComesBefore(view, rows[0], n)
  {
    var i := IndexOf(rows, n);
  }

  lemma ListsEmpty(view: View, rows: seq<Notification>, all: set<Notification>)
    requires Lists(view, rows, all)
    ensures rows == [] <==> all == {}
  {
    if rows != [] { assert rows[0] in all; }
  }

  lemma ListsTail(view: View, rows: seq<Notification>, all: set<Notification>)
    requires Lists(view, rows, all) && rows != []
    ensures Lists(view, rows[1..], all - {rows[0]})
  {
    assert rows == [rows[0]] + rows[1..];
  }

  /** `rows` with `n` before the first row it comes before, or last. */
  function Insert(view: View, rows: seq<Notification>, n: Notification): seq<Notification> {
    if rows == [] then [n]
    else if ComesBefore(view, n, rows[0]) then [n] + rows
    else [rows[0]] + Insert(view, rows[1..], n)
  }

  lemma {:induction false} InsertSorted(view: View, rows: seq<Notification>, n: Notification)
    requires Sorted(view, rows) && forall x | x in rows :: x.id != n.id
    ensures Sorted(view, Insert(view, rows, n))
    ensures forall x :: x in Insert(view, rows, n) <==> x == n || x in rows
  {
    if rows != [] && !ComesBefore(view, n, rows[0]) {
      var rest := Insert(view, rows[1..], n);
      InsertSorted(view, rows[1..], n);
      assert rows == [rows[0]] + rows[1..];
      forall j | 0 <= j < |rest| ensures ComesBefore(view, rows[0], rest[j]) {
        assert rest[j] in rest;
        if rest[j] != n {
          var k := IndexOf(rows[1..], rest[j]);
          assert ComesBefore(view, rows[0], rows[k + 1]);
        }
      }
    }
  }

  ghost predicate DistinctIds(all: set<Notification>) {
    forall a, b | a in all && b in all && a != b :: a.id != b.id
  }

  ghost function InOrder(view: View, all: set<Notification>): (rows: seq<Notification>)
    requires DistinctIds(all)
    ensures Lists(view, rows, all)
    decreases |all|
  {
    if all == {} then []
    else
      var n :| n in all;
      var rest := InOrder(view, all - {n});
      InsertSorted(view, rest, n);
      Insert(view, rest, n)
  }

  // ---- The queries ----

  ghost predicate InTab(db: Table, workspace: Id, view: View, n: Notification) {
    n.id in db && db[n.id] == n && InWorkspace(n, workspace) && Keeps(view, n)
  }

  ghost function TabSet(db: Table, workspace: Id, view: View): (all: set<Notification>)
    ensures forall n :: n in all <==> InTab(db, workspace, view, n)
    ensures DistinctIds(all)
  {
    set id | id in db && InTab(db, workspace, view, db[id]) :: db[id]
  }

  /** A workspace's tab, whole. */
  ghost function Tab(db: Table, workspace: Id, view: View): (rows: seq<Notification>)
    ensures Lists(view, rows, TabSet(db, workspace, view))
  {
    InOrder(view, TabSet(db, workspace, view))
  }

  lemma TabIs(db: Table, workspace: Id, view: View, rows: seq<Notification>)
    requires Lists(view, rows, TabSet(db, workspace, view))
    ensures Tab(db, workspace, view) == rows
  {
    ListsUnique(view, rows, Tab(db, workspace, view), TabSet(db, workspace, view));
  }

  /** Which rows a tab shows: those of the workspace, and the account-level ones once they are read or archived;
      Archived those that are archived, All the others, Unread the ones of these that are unread. */
  lemma TabShows(db: Table, workspace: Id, view: View, id: Id)
    requires Keyed(db) && id in db
    ensures var n := db[id];
            n in Tab(db, workspace, view)
            <==> && (n.workspace == Some(workspace) || (n.workspace.None? && (n.readAt.Some? || n.archivedAt.Some?)))
                 && (n.archivedAt.Some? <==> view.Archived?)
                 && (view.Unread? ==> n.readAt.None?)
  {
    assert db[id] in Tab(db, workspace, view) <==> db[id] in TabSet(db, workspace, view);
  }

  /** A tab is newest first: by the time of archiving in Archived, else by the time of the last event; then by id. */
  lemma TabNewestFirst(db: Table, workspace: Id, view: View, i: nat, j: nat)
    requires i < j < |Tab(db, workspace, view)|
    ensures var a, b := Tab(db, workspace, view)[i], Tab(db, workspace, view)[j];
            if view.Archived?
            then a.archivedAt.Some? && b.archivedAt.Some?
                 && (a.archivedAt.value > b.archivedAt.value || (a.archivedAt == b.archivedAt && a.id > b.id))
            else a.updatedAt > b.updatedAt || (a.updatedAt == b.updatedAt && a.id > b.id)
  {
    var rows := Tab(db, workspace, view);
    assert rows[i] in rows && rows[j] in rows;
    assert ComesBefore(view, rows[i], rows[j]);
  }

  // ---- Changes ----

  datatype Change =
    | Create(id: Id, workspace: Option<Id>, now: Time)
    | Read(ids: set<Id>, now: Time)
    | MarkUnread(ids: set<Id>)
    | Archive(id: Id, now: Time)
    | Unarchive(id: Id)
    | ReadAll(inbox: Id, before: Time, readAt: Time)

  /** What a read-all reads: unread, in the workspace or account-level, not newer than `before`. */
  predicate ReadByAll(n: Notification, workspace: Id, before: Time) {
    && (n.workspace == Some(workspace) || n.workspace.None?)
    && n.readAt.None? && n.archivedAt.None?
    && n.updatedAt <= before
  }

  function Changed(n: Notification, change: Change): Notification {
    match change
    case Create(_, _, _) => n
    case Read(ids, now) => if n.id in ids then n.(readAt := Some(n.readAt.GetOr(now))) else n
    case MarkUnread(ids) => if n.id in ids then n.(readAt := None) else n
    case Archive(id, now) =>
      if n.id == id then n.(archivedAt := Some(n.archivedAt.GetOr(now)), readAt := Some(n.readAt.GetOr(now))) else n
    case Unarchive(id) => if n.id == id then n.(archivedAt := None) else n
    case ReadAll(workspace, before, readAt) => if ReadByAll(n, workspace, before) then n.(readAt := Some(readAt)) else n
  }

  /** The rows after a change; a new row has an id of its own. */
  function Apply(db: Table, change: Change): Table {
    if change.Create? && change.id !in db
    then db[change.id := Notification(change.id, change.workspace, change.now, None, None)]
    else map id | id in db :: Changed(db[id], change)
  }

  lemma ApplyKeepsKeys(db: Table, change: Change)
    requires Keyed(db)
    ensures Keyed(Apply(db, change))
    ensures forall id | id in db ::
              && id in Apply(db, change)
              && Apply(db, change)[id].workspace == db[id].workspace
              && Apply(db, change)[id].updatedAt == db[id].updatedAt
  {
  }

  /** A new notification arrives unread. */
  lemma CreateArrives(db: Table, id: Id, workspace: Option<Id>, now: Time)
    requires id !in db
    ensures var next := Apply(db, Create(id, workspace, now));
            && next.Keys == db.Keys + {id} && (forall x | x in db :: next[x] == db[x])
            && next[id] == Notification(id, workspace, now, None, None)
  {
  }

  /** A read-all reads exactly the unread rows of the workspace and of the account that are not newer than it names. */
  lemma ReadAllReads(db: Table, workspace: Id, before: Time, readAt: Time, id: Id)
    requires id in db
    ensures var n, m := db[id], Apply(db, ReadAll(workspace, before, readAt))[id];
            if (n.workspace.None? || n.workspace == Some(workspace))
               && n.readAt.None? && n.archivedAt.None? && n.updatedAt <= before
            then m == n.(readAt := Some(readAt)) else m == n
  {
  }

  /** The same change at another time. */
  function Again(change: Change, now: Time): Change {
    match change
    case Read(ids, _) => Read(ids, now)
    case Archive(id, _) => Archive(id, now)
    case ReadAll(inbox, before, _) => ReadAll(inbox, before, now)
    case _ => change
  }

  /** Making a change again changes nothing: the first read and archive times stay. */
  lemma AgainChangesNothing(db: Table, change: Change, now: Time)
    requires Keyed(db)
    ensures Apply(Apply(db, change), Again(change, now)) == Apply(db, change)
  {
    var once := Apply(db, change);
    var twice := Apply(once, Again(change, now));
    ApplyKeepsKeys(db, change);
    assert forall id | id in once :: twice[id] == once[id];
  }

  /** Bringing an archived row back undoes the archiving, except that it stays read. */
  lemma UnarchiveUndoes(db: Table, id: Id, now: Time)
    requires Keyed(db) && id in db && db[id].archivedAt.None?
    ensures Apply(Apply(db, Archive(id, now)),
        Unarchive(id)) == db[id := db[id].(readAt := Some(db[id].readAt.GetOr(now)))]
  {
  }

  /** An account-level row that waits unread is read by a read-all of any workspace, unless something happened to it
      after the time the read-all names. */
  lemma AccountStaysUnread(db: Table, inbox: Id, before: Time, readAt: Time, id: Id)
    requires id in db && db[id].workspace.None? && IsUnread(db[id])
    ensures IsUnread(Apply(db, ReadAll(inbox, before, readAt))[id]) <==> db[id].updatedAt > before
  {
  }

  /** One such row: an invite from time 1, and a read-all up to time 2. */
  lemma AccountIsRead(inbox: Id)
    ensures var invite := Notification(0, None, 1, None, None);
            Apply(map[0 := invite], ReadAll(inbox, 2, 3)) == map[0 := invite.(readAt := Some(3))]
  {
  }

  // ---- Unread counts ----

  /** The unread rows of a workspace, or the account-level ones. */
  ghost function UnreadOf(db: Table, workspace: Option<Id>): set<Id> {
    set id | id in db && db[id].workspace == workspace && IsUnread(db[id])
  }

  ghost function CountOf(db: Table, workspace: Option<Id>): nat {
    |UnreadOf(db, workspace)|
  }

  /** What is counted are the rows neither read nor archived. */
  lemma CountOfIs(db: Table, workspace: Option<Id>)
    ensures CountOf(db, workspace)
         == |set id | id in db && db[id].workspace == workspace && db[id].readAt.None? && db[id].archivedAt.None?|
  {
    var unread := set id | id in db && db[id].workspace == workspace && db[id].readAt.None? && db[id].archivedAt.None?;
    assert UnreadOf(db, workspace) == unread;
  }

  predicate IsCounted(members: Option<set<Id>>, workspace: Id) {
    members.Some? ==> workspace in members.value
  }

  class Store {
    var rows: Table

    constructor ()
      ensures rows == map[]
    {
      rows := map[];
    }

    /** One change; archiving or unarchiving a missing row is not found. */
    method Perform(change: Change) returns (found: bool)
      modifies this
      ensures rows == Apply(old(rows), change)
      ensures found <==> (change.Archive? || change.Unarchive? ==> change.id in old(rows))
    {
      found := true;
      match change {
        case Create(id, workspace, now) =>
          if id !in rows {
            rows := rows[id := Notification(id, workspace, now, None, None)];
          }
        case Read(ids, now) =>
          rows := map id | id in rows ::
            if rows[id].id in ids then rows[id].(readAt := Some(rows[id].readAt.GetOr(now))) else rows[id];
        case MarkUnread(ids) =>
          rows := map id | id in rows :: if rows[id].id in ids then rows[id].(readAt := None) else rows[id];
        case Archive(target, now) =>
          found := target in rows;
          rows := map id | id in rows ::
            if rows[id].id == target
            then rows[id].(archivedAt := Some(rows[id].archivedAt.GetOr(now)),
                readAt := Some(rows[id].readAt.GetOr(now)))
            else rows[id];
        case Unarchive(target) =>
          found := target in rows;
          rows := map id | id in rows :: if rows[id].id == target then rows[id].(archivedAt := None) else rows[id];
        case ReadAll(workspace, before, readAt) =>
          rows := map id | id in rows ::
            if ReadByAll(rows[id], workspace, before) then rows[id].(readAt := Some(readAt)) else rows[id];
      }
      assert forall id | id in old(rows) && !(change.Create? && change.id !in old(rows)) ::
          rows[id] == Changed(old(rows)[id], change);
    }

    /** The unread counts of the account and of each workspace; `members`, when given, limits the workspaces. */
    method CountUnread(members: Option<set<Id>>) returns (byWorkspace: map<Id, nat>, account: nat)
      ensures account == CountOf(rows, None)
      ensures forall w :: (if w in byWorkspace then byWorkspace[w] else 0)
                       == if IsCounted(members, w) then CountOf(rows, Some(w)) else 0
    {
      byWorkspace, account := map[], 0;
      var left := rows.Keys;
      assert UnreadIn(rows, rows.Keys - left, None) == {};
      assert forall w: Id :: UnreadIn(rows, rows.Keys - left, Some(w)) == {};
      while left != {}
        invariant left <= rows.Keys
        invariant account == |UnreadIn(rows, rows.Keys - left, None)|
        invariant forall w :: (if w in byWorkspace then byWorkspace[w] else 0)
                           == if IsCounted(members, w) then |UnreadIn(rows, rows.Keys - left, Some(w))| else 0
        decreases left
      {
        var id :| id in left;
        UnreadOneMore(rows, rows.Keys - left, id);
        assert rows.Keys - (left - {id}) == (rows.Keys - left) + {id};
        if IsUnread(rows[id]) {
          match rows[id].workspace {
            case Some(w) =>
              if IsCounted(members, w) {
                byWorkspace := byWorkspace[w := (if w in byWorkspace then byWorkspace[w] else 0) + 1];
              }
            case None => account := account + 1;
          }
        }
        left := left - {id};
      }
      assert rows.Keys - left == rows.Keys;
      assert UnreadIn(rows, rows.Keys, None) == UnreadOf(rows, None);
      assert forall w: Id :: UnreadIn(rows, rows.Keys, Some(w)) == UnreadOf(rows, Some(w));
    }
  }

  ghost function UnreadIn(db: Table, ids: set<Id>, workspace: Option<Id>): set<Id> {
    set id | id in ids && id in db && db[id].workspace == workspace && IsUnread(db[id])
  }

  lemma UnreadOneMore(db: Table, ids: set<Id>, id: Id)
    requires id in db && id !in ids
    ensures forall w :: |UnreadIn(db, ids + {id}, w)|
                     == |UnreadIn(db, ids, w)| + if IsUnread(db[id]) && db[id].workspace == w then 1 else 0
  {
    forall w
      ensures |UnreadIn(db, ids + {id}, w)|
           == |UnreadIn(db, ids, w)| + if IsUnread(db[id]) && db[id].workspace == w then 1 else 0
    {
      if IsUnread(db[id]) && db[id].workspace == w {
        assert UnreadIn(db, ids + {id}, w) == UnreadIn(db, ids, w) + {id};
      } else {
        assert UnreadIn(db, ids + {id}, w) == UnreadIn(db, ids, w);
      }
    }
  }
}
