/** Placing a notification keeps every loaded list a prefix of the server's tab. */
module InboxPrefix {
  import opened Base
  import opened Notifications
  import opened Inbox

  /** The rows are the first ones of the tab; all of them when no page is left to load. */
  ghost predicate Loaded(db: Table, workspace: Id, view: View, rows: seq<Notification>, complete: bool) {
    rows <= Tab(db, workspace, view) && (complete ==> rows == Tab(db, workspace, view))
  }

  ghost predicate ListLoaded(db: Table, list: List) {
    Loaded(db, list.workspace, list.view, Rows(list), Complete(list.pages))
  }

  lemma {:induction false} WithoutSorted(view: View, rows: seq<Notification>, id: Id)
    requires Sorted(view, rows)
    ensures Sorted(view, Without(rows, id))
  {
    if rows != [] {
      WithoutSorted(view, rows[1..], id);
      var rest := Without(rows[1..], id);
      forall j | 0 <= j < |rest| ensures ComesBefore(view, rows[0], rest[j]) {
        assert rest[j] in rest;
        var k := IndexOf(rows[1..], rest[j]);
        assert rows[k + 1] == rest[j];
      }
    }
  }

  /** The client shows in a list of its own workspace, or of any for an account-level one, what the server lists. */
  lemma BelongsIsInTab(view: View, n: Notification, workspace: Id)
    ensures InWorkspace(n, workspace) && Keeps(view, n)
       <==> (n.workspace == Some(workspace) || n.workspace.None?) && BelongsTo(view, n)
  {
  }

  /** The server's tab after the row `n` is written. */
  lemma TabAfterUpsert(db: Table, workspace: Id, view: View, n: Notification)
    requires Keyed(db)
    ensures var rest := Without(Tab(db, workspace, view), n.id);
            Tab(db[n.id := n], workspace, view)
            == if InWorkspace(n, workspace) && Keeps(view, n) then Insert(view, rest, n) else rest
  {
    var tab := Tab(db, workspace, view);
    var rest := Without(tab, n.id);
    var all := TabSet(db[n.id := n], workspace, view);
    WithoutSorted(view, tab, n.id);
    assert forall m: Notification | m.id != n.id :: m in all <==> m in TabSet(db, workspace, view);
    if InWorkspace(n, workspace) && Keeps(view, n) {
      InsertSorted(view, rest, n);
      TabIs(db[n.id := n], workspace, view, Insert(view, rest, n));
    } else {
      assert forall m | m in all :: m.id != n.id;
      TabIs(db[n.id := n], workspace, view, rest);
    }
  }

  lemma PlaceRowsKeepsPrefix(db: Table, workspace: Id, view: View, rows: seq<Notification>, complete: bool,
                             n: Notification)
    requires Keyed(db) && Loaded(db, workspace, view, rows, complete)
    requires n.workspace == Some(workspace) || n.workspace.None?
    ensures Loaded(db[n.id := n], workspace, view, PlaceRows(view, rows, complete, n), complete)
  {
    var tab := Tab(db, workspace, view);
    var rest, more := Without(rows, n.id), Without(tab[|rows|..], n.id);
    assert tab == rows + tab[|rows|..];
    WithoutConcat(rows, tab[|rows|..], n.id);
    assert Without(tab, n.id) == rest + more;
    TabAfterUpsert(db, workspace, view, n);
    BelongsIsInTab(view, n, workspace);
    InsertConcat(view, rest, more, n);
    HasLaterConcat(view, rest, more, n);
    if complete {
      assert rows == tab;
    }
  }

  /** `place` maps a loaded prefix to a loaded prefix. */
  lemma PlaceKeepsPrefix(db: Table, list: List, n: Notification)
    requires Keyed(db) && ListLoaded(db, list)
    requires n.workspace == Some(list.workspace) || n.workspace.None?
    ensures ListLoaded(db[n.id := n], list.(pages := PlacePages(list.view, list.pages, n)))
  {
    PlaceJoins(list.view, list.pages, n);
    PlaceRowsKeepsPrefix(db, list.workspace, list.view, Rows(list), Complete(list.pages), n);
  }

  lemma OtherWorkspaceUntouched(db: Table, workspace: Id, view: View, n: Notification)
    requires Keyed(db)
    requires n.workspace.Some? && n.workspace != Some(workspace)
    requires n.id in db ==> db[n.id].workspace == n.workspace
    ensures Tab(db[n.id := n], workspace, view) == Tab(db, workspace, view)
  {
    assert TabSet(db[n.id := n], workspace, view) == TabSet(db, workspace, view);
    TabIs(db[n.id := n], workspace, view, Tab(db, workspace, view));
  }

  /** When a row is written, placing it in the cached lists keeps all of them loaded. */
  lemma PlaceInListsKeepsLoaded(db: Table, c: Cache, n: Notification)
    requires Keyed(db)
    requires n.id in db ==> db[n.id].workspace == n.workspace
    requires forall list | list in c.lists :: ListLoaded(db, list)
    ensures forall list | list in PlaceInLists(c, n, VIEWS).lists :: ListLoaded(db[n.id := n], list)
  {
    var placed := PlaceInLists(c, n, VIEWS).lists;
    forall i | 0 <= i < |placed| ensures ListLoaded(db[n.id := n], placed[i]) {
      var list := c.lists[i];
      assert list in c.lists;
      if n.workspace == Some(list.workspace) || n.workspace.None? {
        PlaceKeepsPrefix(db, list, n);
      } else {
        OtherWorkspaceUntouched(db, list.workspace, list.view, n);
      }
    }
  }

  /** So a list never shows a row twice or out of order. */
  lemma LoadedInOrder(db: Table, list: List)
    requires Keyed(db) && ListLoaded(db, list)
    ensures Sorted(list.view, Rows(list))
    ensures forall i, j | 0 <= i < j < |Rows(list)| :: Rows(list)[i].id != Rows(list)[j].id
  {
    var tab := Tab(db, list.workspace, list.view);
    var rows := Rows(list);
    assert forall i | 0 <= i < |rows| :: rows[i] == tab[i];
    forall i, j | 0 <= i < j < |rows| ensures rows[i].id != rows[j].id {
      assert tab[i] in tab && tab[j] in tab;
      assert ComesBefore(list.view, tab[i], tab[j]);
    }
  }

  // ---- The pinned group ----

  /** The server's pinned rows: account-level and unread. */
  ghost function PinnedSet(db: Table): (all: set<Notification>)
    requires Keyed(db)
    ensures forall n :: n in all <==> n.id in db && db[n.id] == n && n.workspace.None? && IsUnread(n)
  {
    set id | id in db && db[id].workspace.None? && IsUnread(db[id]) :: db[id]
  }

  lemma {:induction false} SortPinnedSorts(rows: seq<Notification>)
    requires forall i, j | 0 <= i < j < |rows| :: rows[i].id != rows[j].id
    ensures Sorted(All, SortPinned(rows))
  {
    if rows != [] {
      SortPinnedSorts(rows[1..]);
      assert forall n | n in rows[1..] :: n.id != rows[0].id;
      InsertSorted(All, SortPinned(rows[1..]), rows[0]);
    }
  }

  lemma PlacedGroupSorted(group: Group, n: Notification)
    requires Sorted(All, group.rows) && forall a, b | a in group.rows && b in group.rows && a != b :: a.id != b.id
    ensures Sorted(All, PlaceInGroup(group, n).rows)
    ensures forall m :: m in PlaceInGroup(group, n).rows
                   <==> (m == n && n.workspace.None? && IsUnread(n)) || (m in group.rows && m.id != n.id)
  {
    var rest := Without(group.rows, n.id);
    WithoutSorted(All, group.rows, n.id);
    forall i, j | 0 <= i < j < |rest| ensures rest[i].id != rest[j].id {
      assert ComesBefore(All, rest[i], rest[j]);
      assert rest[i] in rest && rest[j] in rest;
    }
    forall i | 0 <= i < |rest| ensures rest[i].id != n.id {
      assert rest[i] in rest;
    }
    SortPinnedSorts([n] + rest);
  }

  /** Placing a written row keeps a pinned group the server's: the account-level unread rows, newest first. */
  lemma PlaceKeepsPinned(db: Table, group: Group, n: Notification)
    requires Keyed(db) && Lists(All, group.rows, PinnedSet(db))
    ensures Lists(All, PlaceInGroup(group, n).rows, PinnedSet(db[n.id := n]))
  {
    PlacedGroupSorted(group, n);
    var before, after := PinnedSet(db), PinnedSet(db[n.id := n]);
    forall m: Notification ensures m in PlaceInGroup(group, n).rows <==> m in after {
      assert m.id != n.id ==> (m in after <==> m in before);
    }
  }
}
