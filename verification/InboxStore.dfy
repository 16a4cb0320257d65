/** The cache as the client changes it in place: each method does what its function in `Inbox` says. */
module InboxStore {
  import opened Base
  import opened Notifications
  import opened Inbox

  function FindLater(view: View, rows: seq<Notification>, n: Notification): (i: Option<nat>)
    ensures i.None? <==> !HasLater(view, rows, n)
    ensures i.Some? ==> i.value < |rows| && ComesBefore(view, n, rows[i.value])
                        && !HasLater(view, rows[..i.value], n)
  {
    if rows == [] then None
    else if ComesBefore(view, n, rows[0]) then Some(0)
    else
      assert forall i | 0 < i < |rows| :: rows[i] == rows[1..][i - 1];
      match FindLater(view, rows[1..], n)
      case None => None
      case Some(i) => assert rows[..i + 1] == [rows[0]] + rows[1..][..i]; Some(i + 1)
  }

  lemma {:induction false} InsertLast(view: View, rows: seq<Notification>, n: Notification)
    requires !HasLater(view, rows, n)
    ensures Insert(view, rows, n) == rows + [n]
  {
    if rows != [] {
      assert forall i | 0 <= i < |rows| - 1 :: rows[1..][i] == rows[i + 1];
      InsertLast(view, rows[1..], n);
    }
  }

  lemma InsertSplices(view: View, rows: seq<Notification>, n: Notification, i: nat)
    requires i < |rows| && ComesBefore(view, n, rows[i]) && !HasLater(view, rows[..i], n)
    ensures Insert(view, rows, n) == rows[..i] + [n] + rows[i..]
  {
    assert rows == rows[..i] + rows[i..];
    InsertConcat(view, rows[..i], rows[i..], n);
  }

  lemma {:induction false} InsertPagesAt(view: View, pages: seq<Part>, n: Notification, i: nat)
    requires i < |pages| && forall j | 0 <= j < i :: !HasLater(view, pages[j].rows, n)
    requires HasLater(view, pages[i].rows, n) || (i == |pages| - 1 && pages[i].next.None?)
    ensures InsertPages(view, pages, n) == pages[i := pages[i].(rows := Insert(view, pages[i].rows, n))]
  {
    if i > 0 {
      assert forall j | 0 <= j < i - 1 :: pages[1..][j] == pages[j + 1];
      InsertPagesAt(view, pages[1..], n, i - 1);
    }
  }

  lemma {:induction false} InsertPagesNowhere(view: View, pages: seq<Part>, n: Notification)
    requires forall j | 0 <= j < |pages| :: !HasLater(view, pages[j].rows, n)
    requires !Complete(pages)
    ensures InsertPages(view, pages, n) == pages
  {
    if pages != [] {
      assert forall j | 0 <= j < |pages| - 1 :: pages[1..][j] == pages[j + 1];
      InsertPagesNowhere(view, pages[1..], n);
    }
  }

  method Place(view: View, pages: seq<Part>, n: Notification) returns (placed: seq<Part>)
    ensures placed == PlacePages(view, pages, n)
  {
    placed := WithoutPages(pages, n.id);
    if !BelongsTo(view, n) { return; }
    ghost var rest := placed;
    var i := 0;
    while i < |placed|
      invariant i <= |placed| && placed == rest
      invariant forall j | 0 <= j < i :: !HasLater(view, rest[j].rows, n)
    {
      var rows := placed[i].rows;
      var index := FindLater(view, rows, n);
      if index.Some? {
        InsertSplices(view, rows, n, index.value);
        InsertPagesAt(view, rest, n, i);
        placed := placed[i := placed[i].(rows := rows[..index.value] + [n] + rows[index.value..])];
        return;
      }
      i := i + 1;
    }
    var last := |placed| - 1;
    if last >= 0 && placed[last].next.None? {
      InsertLast(view, placed[last].rows, n);
      InsertPagesAt(view, rest, n, last);
      placed := placed[last := placed[last].(rows := placed[last].rows + [n])];
    } else {
      InsertPagesNowhere(view, rest, n);
    }
  }

  class Store {
    var lists: seq<List>
    var pinned: seq<Group>
    var summary: Option<Summary>
    var inFlight: map<Id, nat>
    var behind: bool
    var refetches: nat

    /** The whole state. */
    function Now(): Cache
      reads this
    {
      Cache(lists, pinned, summary, inFlight, behind, refetches)
    }

    constructor ()
      ensures Now() == Cache([], [], None, map[], false, 0)
    {
      lists, pinned, summary, inFlight, behind, refetches := [], [], None, map[], false, 0;
    }

    method CachedNotification(id: Id) returns (found: Option<Notification>)
      ensures found == Cached(Now(), id)
    {
      found := FirstWith(ListCopies(lists) + GroupCopies(pinned), id);
    }

    method PlaceEverywhere(n: Notification, views: set<View>)
      modifies `lists
      ensures Now() == PlaceInLists(old(Now()), n, views)
    {
      var i := 0;
      while i < |lists|
        invariant i <= |lists| == |old(lists)|
        invariant forall j | 0 <= j < i :: lists[j] == PlaceInList(old(lists)[j], n, views)
        invariant forall j | i <= j < |lists| :: lists[j] == old(lists)[j]
      {
        var list := lists[i];
        if (list.workspace == n.workspace.GetOr(list.workspace)) && list.view in views {
          var pages := Place(list.view, list.pages, n);
          lists := lists[i := list.(pages := pages)];
        }
        i := i + 1;
      }
    }

    method PlacePinned(n: Notification)
      modifies `pinned
      ensures Now() == PlaceInPinned(old(Now()), n)
    {
      var belongs := n.workspace.None? && IsUnread(n);
      var i := 0;
      while i < |pinned|
        invariant i <= |pinned| == |old(pinned)|
        invariant forall j | 0 <= j < i :: pinned[j] == PlaceInGroup(old(pinned)[j], n)
        invariant forall j | i <= j < |pinned| :: pinned[j] == old(pinned)[j]
      {
        var rest := Without(pinned[i].rows, n.id);
        pinned := pinned[i := pinned[i].(rows := if belongs then SortPinned([n] + rest) else rest)];
        i := i + 1;
      }
    }

    method SwapLists(f: Notification -> Notification)
      modifies `lists
      ensures Now() == MapLists(old(Now()), f)
    {
      var i := 0;
      while i < |lists|
        invariant i <= |lists| == |old(lists)|
        invariant forall j | 0 <= j < i :: lists[j] == MapList(old(lists)[j], f)
        invariant forall j | i <= j < |lists| :: lists[j] == old(lists)[j]
      {
        lists := lists[i := MapList(lists[i], f)];
        i := i + 1;
      }
    }

    method SwapPinned(f: Notification -> Notification)
      modifies `pinned
      ensures Now() == MapPinned(old(Now()), f)
    {
      var i := 0;
      while i < |pinned|
        invariant i <= |pinned| == |old(pinned)|
        invariant forall j | 0 <= j < i :: pinned[j] == old(pinned)[j].(rows := MapRows(old(pinned)[j].rows, f))
        invariant forall j | i <= j < |pinned| :: pinned[j] == old(pinned)[j]
      {
        pinned := pinned[i := pinned[i].(rows := MapRows(pinned[i].rows, f))];
        i := i + 1;
      }
    }

    method Replace(changed: seq<Notification>)
      modifies `lists, `pinned
      ensures Now() == ReplaceInPlace(old(Now()), changed)
    {
      var swap := (n: Notification) => LastOf(changed, n.id).GetOr(n);
      SwapLists(swap);
      SwapPinned(swap);
    }

    method ReadAllHere(rule: ReadAllUpdate)
      modifies `lists, `pinned
      ensures Now() == ReadAllInPlace(old(Now()), rule)
    {
      var held := inFlight;
      var read := (n: Notification) => ReadAllOne(held, rule, n);
      SwapLists(read);
      SwapPinned(read);
    }

    /** A pushed update. */
    method ReceiveUpdate(update: Update)
      modifies this
      ensures Now() == Receive(old(Now()), update)
    {
      var inPlace: seq<Notification> := [];
      var i := 0;
      while i < |update.upserted|
        invariant i <= |update.upserted|
        invariant Progress(Now(), inPlace) == UpsertAll(old(Now()), update.upserted[..i])
      {
        var n := update.upserted[i];
        assert update.upserted[..i + 1][..i] == update.upserted[..i];
        i := i + 1;
        if n.id in inFlight {
          behind := true;
          continue;
        }
        var known := CachedNotification(n.id);
        if known.Some? && known.value.archivedAt == n.archivedAt {
          inPlace := inPlace + [n];
          continue;
        }
        PlacePinned(n);
        PlaceEverywhere(n, VIEWS);
      }
      assert update.upserted[..i] == update.upserted;
      Replace(inPlace);
      if update.readAll.Some? {
        ReadAllHere(update.readAll.value);
      }
      if inFlight != map[] {
        behind := true;
      } else {
        summary := Some(update.summary);
      }
    }

    method HoldIds(ids: seq<Id>)
      modifies `inFlight
      ensures Now() == Hold(old(Now()), ids)
    {
      var i := 0;
      while i < |ids|
        invariant i <= |ids| && inFlight == HoldAll(old(inFlight), ids[..i])
      {
        assert ids[..i + 1][..i] == ids[..i];
        inFlight := inFlight[ids[i] := (if ids[i] in inFlight then inFlight[ids[i]] else 0) + 1];
        i := i + 1;
      }
      assert ids[..i] == ids;
    }

    /** `fetched` is what the server answers, should it be asked. */
    method ReleaseIds(ids: seq<Id>, fetched: Fetched)
      modifies this
      ensures Now() == Release(old(Now()), ids, fetched)
    {
      var i := 0;
      while i < |ids|
        invariant i <= |ids| && inFlight == ReleaseAll(old(inFlight), ids[..i])
        invariant Now() == old(Now()).(inFlight := inFlight)
      {
        assert ids[..i + 1][..i] == ids[..i];
        var count: int := if ids[i] in inFlight then inFlight[ids[i]] else 1;
        var left := count - 1;
        if left > 0 {
          inFlight := inFlight[ids[i] := left];
        } else {
          inFlight := inFlight - {ids[i]};
        }
        i := i + 1;
      }
      assert ids[..i] == ids;
      if inFlight == map[] && behind {
        behind := false;
        refetches := refetches + 1;
        Refetch(fetched);
      }
    }

    /** The summary and every pinned group from the server; the lists stay. */
    method Refetch(fetched: Fetched)
      modifies `summary, `pinned
      ensures Now() == Refresh(old(Now()), fetched)
    {
      if summary.Some? {
        summary := Some(fetched.summary);
      }
      var i := 0;
      while i < |pinned|
        invariant i <= |pinned| == |old(pinned)|
        invariant summary == if old(summary).Some? then Some(fetched.summary) else None
        invariant forall j | 0 <= j < i :: pinned[j] == old(pinned)[j].(rows := fetched.pinned)
        invariant forall j | i <= j < |pinned| :: pinned[j] == old(pinned)[j]
      {
        pinned := pinned[i := pinned[i].(rows := fetched.pinned)];
        i := i + 1;
      }
    }

    /** Applies a list of edits to the summary, one after the other. */
    method MoveCounts(edits: seq<Edit>)
      modifies `summary
      ensures Now() == PatchSummary(old(Now()), edits)
    {
      if summary.None? { return; }
      var next := summary.value;
      var i := 0;
      while i < |edits|
        invariant i <= |edits| && next == PatchCounts(summary.value, edits[..i])
      {
        assert edits[..i + 1][..i] == edits[..i];
        var e := edits[i];
        var delta: int := (if IsUnread(e.after) then 1 else 0) as int - (if IsUnread(e.before) then 1 else 0) as int;
        if delta != 0 {
          match e.after.workspace {
            case Some(w) =>
              var count: nat := Max(0, (if w in next.byWorkspace then next.byWorkspace[w] else 0) + delta);
              next := next.(byWorkspace := next.byWorkspace[w := count]);
            case None =>
              var count: nat := Max(0, next.account + delta);
              next := next.(account := count);
          }
        }
        i := i + 1;
      }
      assert edits[..i] == edits;
      summary := Some(next);
    }

    /** The summary first, then the lists, then group after group, each with the placements it causes. */
    method PatchReadNotification(ids: seq<Id>, readAt: Option<Time>)
      modifies `lists, `pinned, `summary
      ensures Now() == PatchRead(old(Now()), ids, readAt)
    {
      var edits: seq<Edit> := [];
      var k := 0;
      while k < |ids|
        invariant k <= |ids| && Now() == old(Now()) && edits == ReadEdits(Now(), ids[..k], readAt)
      {
        assert ids[..k + 1][..k] == ids[..k];
        var before := CachedNotification(ids[k]);
        if before.Some? {
          edits := edits + [Edit(before.value, before.value.(readAt := readAt))];
        }
        k := k + 1;
      }
      assert ids[..k] == ids;
      MoveCounts(edits);
      ghost var counted := Now();
      assert counted == PatchSummary(old(Now()), ReadEdits(old(Now()), ids, readAt));
      SwapLists((n: Notification) => ReadPatch(ids, readAt, n));
      assert Now() == MapLists(counted, (n: Notification) => ReadPatch(ids, readAt, n));
      PatchPinned(ids, readAt);
    }

    method PlaceInAll(moving: seq<Notification>)
      modifies `lists
      ensures Now() == PlaceAll(old(Now()), moving, {All})
    {
      ghost var was := Now();
      var m := 0;
      while m < |moving|
        invariant m <= |moving|
        invariant Now() == PlaceAll(was, moving[..m], {All})
      {
        assert moving[..m + 1][..m] == moving[..m];
        PlaceEverywhere(moving[m], {All});
        m := m + 1;
      }
      assert moving[..m] == moving;
    }

    method PatchPinned(ids: seq<Id>, readAt: Option<Time>)
      modifies `lists, `pinned
      ensures Now() == PatchGroups(old(Now()), ids, readAt, |old(pinned)|)
    {
      ghost var was := Now();
      var g := 0;
      while g < |pinned|
        invariant g <= |pinned| == |was.pinned|
        invariant Now() == PatchGroups(was, ids, readAt, g)
      {
        var group := pinned[g];
        assert group == pinned[g..][0] == was.pinned[g..][0];
        var stays, moving := SplitGroup(group, ids, readAt);
        pinned := pinned[g := group.(rows := stays)];
        PlaceInAll(moving);
        g := g + 1;
      }
    }

    /** The loaded notifications that a read-all reads. */
    method CollectIds(workspace: Id, before: Time) returns (ids: seq<Id>)
      ensures ids == ReadAllIds(Now(), workspace, before)
    {
      ids := [];
      var i := 0;
      while i < |lists|
        invariant i <= |lists| && ids == ReadInLists(lists[..i], workspace, before)
      {
        assert lists[..i + 1][..i] == lists[..i];
        if lists[i].workspace == workspace {
          ids := CollectRead(ids, Rows(lists[i]), workspace, before);
        }
        i := i + 1;
      }
      assert lists[..i] == lists;
      ghost var inLists := ids;
      i := 0;
      while i < |pinned|
        invariant i <= |pinned| && ids == ReadInGroups(inLists, pinned[..i], workspace, before)
      {
        assert pinned[..i + 1][..i] == pinned[..i];
        ids := CollectRead(ids, pinned[i].rows, workspace, before);
        i := i + 1;
      }
      assert pinned[..i] == pinned;
    }

    /** Collects the ids by the rule, and patches them. */
    method PatchReadEverything(workspace: Id, before: Time, readAt: Time) returns (ids: seq<Id>)
      modifies `lists, `pinned, `summary
      ensures Now() == PatchReadAll(old(Now()), workspace, before, readAt)
      ensures ids == ReadAllIds(old(Now()), workspace, before)
    {
      ids := CollectIds(workspace, before);
      PatchReadNotification(ids, Some(readAt));
    }

    method DropEverywherePinned(id: Id)
      modifies `pinned
      ensures Now() == DropPinned(old(Now()), id)
    {
      var i := 0;
      while i < |pinned|
        invariant i <= |pinned| == |old(pinned)|
        invariant forall j | 0 <= j < i :: pinned[j] == old(pinned)[j].(rows := Without(old(pinned)[j].rows, id))
        invariant forall j | i <= j < |pinned| :: pinned[j] == old(pinned)[j]
      {
        pinned := pinned[i := pinned[i].(rows := Without(pinned[i].rows, id))];
        i := i + 1;
      }
    }

    /** Archives a notification, or brings it back. */
    method PatchArchiveNotification(n: Notification, archivedAt: Option<Time>)
      modifies `lists, `pinned, `summary
      ensures Now() == PatchArchive(old(Now()), n, archivedAt)
    {
      var known := CachedNotification(n.id);
      var current := known.GetOr(n);
      var readAt := if archivedAt.Some? then Some(current.readAt.GetOr(archivedAt.value)) else current.readAt;
      var next := current.(archivedAt := archivedAt, readAt := readAt);
      MoveCounts([Edit(current, next)]);
      PlaceEverywhere(next, VIEWS);
      DropEverywherePinned(next.id);
    }
  }

  /** A pinned group after a read: the rows that stay in it, and those that leave it for the lists. */
  method SplitGroup(group: Group, ids: seq<Id>, readAt: Option<Time>)
    returns (stays: seq<Notification>, moving: seq<Notification>)
    ensures stays == Staying(group.view, group.rows, ids, readAt)
    ensures moving == Moving(group.view, group.rows, ids, readAt)
  {
    stays, moving := [], [];
    var i := 0;
    while i < |group.rows|
      invariant i <= |group.rows|
      invariant stays == Staying(group.view, group.rows[..i], ids, readAt)
      invariant moving == Moving(group.view, group.rows[..i], ids, readAt)
    {
      assert group.rows[..i + 1][..i] == group.rows[..i];
      var n := group.rows[i];
      if n.id !in ids {
        stays := stays + [n];
      } else {
        var changed := n.(readAt := readAt);
        if group.view.All? && !IsUnread(changed) {
          moving := moving + [changed];
        } else {
          stays := stays + [changed];
        }
      }
      i := i + 1;
    }
    assert group.rows[..i] == group.rows;
  }

  method CollectRead(ids: seq<Id>, rows: seq<Notification>, workspace: Id, before: Time) returns (added: seq<Id>)
    ensures added == AddRead(ids, rows, workspace, before)
  {
    added := ids;
    var i := 0;
    while i < |rows|
      invariant i <= |rows| && added == AddRead(ids, rows[..i], workspace, before)
    {
      assert rows[..i + 1][..i] == rows[..i];
      if ReadByAll(rows[i], workspace, before) && rows[i].id !in added {
        added := added + [rows[i].id];
      }
      i := i + 1;
    }
    assert rows[..i] == rows;
  }
}
