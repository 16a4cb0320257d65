/** What every request keeps: the pages stay a forest, live pages stay under live pages, and every
    trash keeps its shape, over any run. */
module PageTree {
  import opened Base
  import opened Keys
  import opened ChangeLog
  import opened Forest
  import opened PageSteps

  // ---- What a committed request changes ----

  /** Nothing but the key among the siblings differs, and that only for a live page. */
  ghost predicate Rekeyed(p: Page, q: Page) {
    q == p.(position := q.position) && (!p.Live() ==> q == p)
  }

  ghost predicate Created(t: Table, u: Table, id: Id, parent: Option<Id>) {
    && id !in t
    && u.Keys == t.Keys + {id}
    && u[id].parent == parent && u[id].Live() && u[id].deletedRoot.None? && u[id].version == 1
    && !ShortIdUsed(t, u[id].shortId)
    && (parent.Some? ==> LiveIn(t, u[id].workspace, parent.value))
    && forall x | x in t :: Rekeyed(t[x], u[x])
  }

  ghost predicate Moved(t: Table, u: Table, id: Id, parent: Option<Id>)
    requires Rooted(t)
  {
    && id in t && t[id].Live()
    && u.Keys == t.Keys
    && u[id] == t[id].(parent := parent, position := u[id].position, version := t[id].version + 1)
    && (parent.Some? ==> LiveIn(t, t[id].workspace, parent.value) && !Under(t, id, parent.value))
    && forall x | x in t && x != id :: Rekeyed(t[x], u[x])
  }

  ghost predicate Patched(t: Table, u: Table, id: Id) {
    && id in t && t[id].Live()
    && u.Keys == t.Keys
    && u[id] == t[id].(title := u[id].title, icon := u[id].icon, kind := u[id].kind, version := t[id].version + 1)
    && forall x | x in t && x != id :: u[x] == t[x]
  }

  ghost predicate Trashed(t: Table, u: Table, root: Id, at: Time)
    requires Rooted(t)
  {
    && root in t && t[root].Live()
    && u.Keys == t.Keys
    && forall x | x in t ::
         u[x] == if x in Taken(t, root)
                 then t[x].(deletedAt := Some(at), deletedRoot := Some(root), version := t[x].version + 1)
                 else t[x]
  }

  ghost function RestoredParent(t: Table, id: Id): Option<Id>
    requires id in t
  {
    if ParentAlive(t, t[id]) then t[id].parent else None
  }

  ghost predicate Restored(t: Table, u: Table, root: Id) {
    && root in t && t[root].deletedRoot == Some(root)
    && u.Keys == t.Keys
    && u[root] == t[root].(parent := RestoredParent(t, root), position := u[root].position,
                           deletedAt := None, deletedRoot := None, version := t[root].version + 1)
    && (ParentAlive(t, t[root]) ==> u[root].position == t[root].position)
    && forall x | x in t && x != root :: RestoredRow(t, u, root, x)
  }

  ghost predicate RestoredRow(t: Table, u: Table, root: Id, x: Id)
    requires root in t && x in t && x in u
  {
    if x in TrashedWith(t, root)
    then u[x] == t[x].(deletedAt := None, deletedRoot := None, version := t[x].version + 1)
    else Rekeyed(t[x], u[x]) && (ParentAlive(t, t[root]) ==> u[x] == t[x])
  }

  ghost predicate Committed(t: Table, u: Table, step: Step, page: Id)
    requires Inv(t)
  {
    match step
    case Create(_, _, request, _, _) => Created(t, u, page, request.parent)
    case Move(_, _, id, parent, _) => page == id && Moved(t, u, id, parent)
    case Patch(_, _, id, _, _, _) => page == id && Patched(t, u, id)
    case Delete(_, _, id, at) => page == id && Trashed(t, u, id, at)
    case Restore(_, _, id) =>
      page == id && Restored(t, u, id)
  }

  ghost predicate RekeyedTable(t: Table, u: Table) {
    u.Keys == t.Keys && forall x | x in t :: Rekeyed(t[x], u[x])
  }

  // ---- Placement ----

  lemma RenumberPositions(t: Table, ids: seq<Id>, keys: seq<Key>)
    requires |ids| == |keys| && Distinct(ids) && forall x | x in ids :: x in t
    ensures forall i | 0 <= i < |ids| :: Renumber(t, ids, keys)[ids[i]].position == keys[i]
  {
    forall i | 0 <= i < |ids| ensures Renumber(t, ids, keys)[ids[i]].position == keys[i] {
      assert ids[i] in ids;
      assert IndexOf(ids, ids[i]) == i;
    }
  }

  /** Renumbering gives every sibling its key, in order, and touches nothing else. */
  lemma RenumberKeys(t: Table, ids: seq<Id>, keys: seq<Key>)
    requires |ids| == |keys| && Distinct(ids) && forall x | x in ids :: x in t && t[x].Live()
    ensures var u := Renumber(t, ids, keys);
            && RekeyedTable(t, u)
            && (forall i | 0 <= i < |ids| :: u[ids[i]].position == keys[i])
            && forall x | x in t && x !in ids :: u[x] == t[x]
  {
    RenumberPositions(t, ids, keys);
  }

  lemma PlaceAmongRekeys(t: Table, ids: seq<Id>, index: Option<nat>)
    requires Distinct(ids) && forall x | x in ids :: x in t && t[x].Live()
    ensures var u := PlaceAmong(t, ids, index).pages;
            RekeyedTable(t, u) && forall x | x in t && x !in ids :: u[x] == t[x]
  {
    var i: int := PlaceIndex(index, |ids|);
    if Between(KeyAt(t, ids, i - 1), KeyAt(t, ids, i)).None? {
      var keys := Spread(|ids| + 1);
      RenumberKeys(t, ids, keys[..i] + keys[i + 1..]);
    }
  }

  lemma PlaceRekeys(t: Table, workspace: Id, parent: Option<Id>, index: Option<nat>, except: Option<Id>)
    ensures var u := Place(t, workspace, parent, index, except).pages;
            && RekeyedTable(t, u)
            && forall x | x in t && x !in Kids(t, workspace, parent, except) :: u[x] == t[x]
  {
    var ids := Children(t, workspace, parent, except);
    OrderedDistinct(t, ids);
    PlaceAmongRekeys(t, ids, index);
  }

  // ---- Commits have these shapes ----

  /** A changed field is in the difference. */
  lemma DiffNotEmpty(current: PageState, next: PageState, field: Field)
    requires current.Get(field) != next.Get(field)
    ensures PageDiff(current, next) != []
  {
    assert field in FIELDS by {
      assert FIELDS[0] == Title && FIELDS[1] == Icon && FIELDS[2] == Kind
          && FIELDS[3] == Parent && FIELDS[4] == Position && FIELDS[5] == DeletedAt;
    }
    DiffRecorded(FIELDS, f => current.Get(f), f => next.Get(f), 0, 1, 0, field, 0);
  }

  lemma InsertShape(db: Db, placed: Placement, id: Id, page: Page)
    requires id !in db.pages && RekeyedTable(db.pages, placed.pages)
    requires page.Live() && page.deletedRoot.None? && page.version == 1 && !ShortIdUsed(db.pages, page.shortId)
    requires page.parent.Some? ==> LiveIn(db.pages, page.workspace, page.parent.value)
    ensures Created(db.pages, Inserted(db, placed, id, page).pages, id, page.parent)
  {
  }

  lemma MoveCommitShape(db: Db, placed: Placement, id: Id, parent: Option<Id>, actor: Id)
    requires Rooted(db.pages) && id in db.pages && db.pages[id].Live()
    requires RekeyedTable(db.pages, placed.pages) && placed.pages[id] == db.pages[id]
    requires parent.Some? ==> LiveIn(db.pages, db.pages[id].workspace, parent.value) && !Under(db.pages, id,
        parent.value)
    ensures MoveCommit(db, placed, id, parent, actor).Some? ==>
              Moved(db.pages, MoveCommit(db, placed, id, parent, actor).value.pages, id, parent)
  {
  }

  lemma TrashedNotLive(t: Table, root: Id)
    requires Inv(t)
    ensures forall x | x in TrashedWith(t, root) :: !t[x].Live()
  {
    forall x | x in TrashedWith(t, root) ensures !t[x].Live() { assert Fits(t, x); }
  }

  /** A restored page has a date less, so the update is not empty. */
  lemma RestoreDiffers(page: Page, next: PageState)
    requires page.deletedAt.Some? && next.deletedAt.None?
    ensures PageDiff(StateOf(page), next) != []
  {
    DiffNotEmpty(StateOf(page), next, DeletedAt);
  }

  lemma RestoredRows(t: Table, u: Table, id: Id)
    requires id in t && RekeyedTable(t, u) && (ParentAlive(t, t[id]) ==> u == t)
    requires forall x | x in TrashedWith(t, id) :: !t[x].Live()
    ensures forall x | x in t && x != id :: RestoredRow(t, RestoreDescendants(u, id), id, x)
  {
    forall x | x in t && x != id ensures RestoredRow(t, RestoreDescendants(u, id), id, x) {}
  }

  /** The pages after a restore is committed: the descendants back, and the root written over them. */
  lemma RestoreCommits(db: Db, placed: Placement, id: Id, parent: Option<Id>, actor: Id)
    requires id in db.pages && db.pages[id].deletedAt.Some? && placed.pages.Keys == db.pages.Keys
    requires placed.pages[id] == db.pages[id]
    ensures var next := StateOf(db.pages[id]).(parent := parent, position := placed.key, deletedAt := None,
        deletedRoot := None);
            var committed := RestoreCommit(db, placed, id, parent, actor);
            committed.Some?
            && committed.value.pages == RestoreDescendants(placed.pages, id)[id := Written(db.pages[id], next)]
  {
    var next := StateOf(db.pages[id]).(parent := parent, position := placed.key, deletedAt := None,
        deletedRoot := None);
    RestoreDiffers(db.pages[id], next);
  }

  lemma RestoreCommitShape(db: Db, placed: Placement, id: Id, actor: Id)
    requires id in db.pages && db.pages[id].deletedRoot == Some(id)
    requires RekeyedTable(db.pages, placed.pages)
    requires ParentAlive(db.pages, db.pages[id]) ==> placed == Placement(db.pages[id].position, db.pages)
    requires forall x | x in TrashedWith(db.pages, id) :: !db.pages[x].Live()
    ensures var committed := RestoreCommit(db, placed, id, RestoredParent(db.pages, id), actor);
            committed.Some? && Restored(db.pages, committed.value.pages, id)
  {
    assert id in TrashedWith(db.pages, id);
    RestoreCommits(db, placed, id, RestoredParent(db.pages, id), actor);
    RestoredRows(db.pages, placed.pages, id);
  }

  /** Nothing is recorded exactly when nothing changes. */
  lemma DiffEmpty(current: PageState, next: PageState)
    ensures PageDiff(current, next) == [] && next.deletedRoot == current.deletedRoot <==> next == current
  {
    if current.Get(Title) != next.Get(Title) { DiffNotEmpty(current, next, Title); }
    if current.Get(Icon) != next.Get(Icon) { DiffNotEmpty(current, next, Icon); }
    if current.Get(Kind) != next.Get(Kind) { DiffNotEmpty(current, next, Kind); }
    if current.Get(Parent) != next.Get(Parent) { DiffNotEmpty(current, next, Parent); }
    if current.Get(Position) != next.Get(Position) { DiffNotEmpty(current, next, Position); }
    if current.Get(DeletedAt) != next.Get(DeletedAt) { DiffNotEmpty(current, next, DeletedAt); }
    NothingDiffers(FIELDS, f => current.Get(f));
  }

  lemma CreateUnderShape(db: Db, workspace: Id, actor: Id, request: CreateRequest, id: Id, generated: seq<string>)
    requires request.parent.Some? ==> LiveIn(db.pages, workspace, request.parent.value)
    ensures var (next, outcome) := CreateUnder(db, workspace, actor, request, id, generated);
            if outcome.Done? then outcome.page == id && Created(db.pages, next.pages, id, request.parent)
                else next == db
  {
    var shortId := ShortIdFor(db.pages, request, generated);
    FirstFreeIsFree(db.pages, generated[..Min(SHORT_ID_ATTEMPTS, |generated|)]);
    if id !in db.pages && shortId.Some? {
      PlaceRekeys(db.pages, workspace, request.parent, None, None);
      var placed := Place(db.pages, workspace, request.parent, None, None);
      InsertShape(db, placed, id, NewPage(workspace, actor, request, placed.key, shortId.value));
    }
  }

  lemma CreateShape(db: Db, workspace: Id, actor: Id, request: CreateRequest, newId: Id, generated: seq<string>)
    requires Inv(db.pages)
    ensures var (next, outcome) := CreateStep(db, workspace, actor, request, newId, generated);
            if outcome.Done? then Created(db.pages, next.pages, outcome.page, request.parent) else next == db
  {
    if CreateRefusal(db.pages, workspace, request.parent).None? {
      CreateUnderShape(db, workspace, actor, request, request.id.GetOr(newId), generated);
    }
  }

  lemma MoveToShape(db: Db, workspace: Id, actor: Id, id: Id, parent: Option<Id>, index: nat)
    requires Rooted(db.pages) && LiveIn(db.pages, workspace, id)
    requires parent.Some? ==> LiveIn(db.pages, workspace, parent.value) && !Under(db.pages, id, parent.value)
    ensures var (next, outcome) := MoveTo(db, workspace, actor, id, parent, index);
            if outcome.Done? then outcome.page == id && Moved(db.pages, next.pages, id, parent) else next == db
  {
    PlaceRekeys(db.pages, workspace, parent, Some(index), Some(id));
    MoveCommitShape(db, Place(db.pages, workspace, parent, Some(index), Some(id)), id, parent, actor);
  }

  lemma MoveShape(db: Db, workspace: Id, actor: Id, id: Id, parent: Option<Id>, index: nat)
    requires Inv(db.pages)
    ensures var (next, outcome) := MoveStep(db, workspace, actor, id, parent, index);
            if outcome.Done? then outcome.page == id && Moved(db.pages, next.pages, id, parent) else next == db
  {
    if LiveIn(db.pages, workspace, id) && MoveRefusal(db.pages, workspace, id, parent).None? {
      MoveToShape(db, workspace, actor, id, parent, index);
    }
  }

  lemma PatchShape(db: Db, workspace: Id, actor: Id, id: Id, base: int, change: ChangeSet, written: bool)
    ensures var (next, outcome) := PatchStep(db, workspace, actor, id, base, change, written);
            if outcome.Done? then outcome.page == id && Patched(db.pages, next.pages, id) else next == db
  {
  }

  lemma TrashShape(db: Db, actor: Id, id: Id, at: Time)
    requires Rooted(db.pages) && id in db.pages && db.pages[id].Live()
    ensures var next := StateOf(db.pages[id]).(deletedAt := Some(at), deletedRoot := Some(id));
            var deleted := Update(Db(TrashDescendants(db.pages, id, at), db.log), id, db.pages[id], next, actor);
            deleted.Some? && Trashed(db.pages, deleted.value.pages, id, at)
  {
    var t := db.pages;
    DiffNotEmpty(StateOf(t[id]), StateOf(t[id]).(deletedAt := Some(at), deletedRoot := Some(id)), DeletedAt);
    assert id in Taken(t, id) by { assert PathOf(t, id)[0] == id; }
  }

  lemma DeleteShape(db: Db, workspace: Id, actor: Id, id: Id, at: Time)
    requires Inv(db.pages)
    ensures var (next, outcome) := DeleteStep(db, workspace, actor, id, at);
            if outcome.Done? then outcome.page == id && Trashed(db.pages, next.pages, id, at) else next == db
    ensures LiveIn(db.pages, workspace, id) ==> DeleteStep(db, workspace, actor, id, at).1.Done?
  {
    if id in db.pages && db.pages[id].Live() { TrashShape(db, actor, id, at); }
  }

  lemma RestoreRootShape(db: Db, actor: Id, id: Id)
    requires Inv(db.pages) && id in db.pages && db.pages[id].deletedRoot == Some(id)
    ensures var (next, outcome) := RestoreRoot(db, actor, id);
            outcome == Done(id) && Restored(db.pages, next.pages, id)
  {
    var t := db.pages;
    TrashedNotLive(t, id);
    PlaceRekeys(t, t[id].workspace, None, None, None);
    var alive := ParentAlive(t, t[id]);
    var placed := if alive then Placement(t[id].position, t) else Place(t, t[id].workspace, None, None, None);
    RestoreCommitShape(db, placed, id, actor);
  }

  lemma RestoreShape(db: Db, workspace: Id, actor: Id, id: Id)
    requires Inv(db.pages)
    ensures var (next, outcome) := RestoreStep(db, workspace, actor, id);
            if outcome.Done?
            then
              outcome.page == id && Restored(db.pages, next.pages, id)
            else next == db
    ensures id in db.pages && db.pages[id].workspace == workspace && db.pages[id].deletedRoot == Some(id) ==>
              RestoreStep(db, workspace, actor, id).1.Done?
  {
    if id in db.pages && db.pages[id].deletedRoot == Some(id) {
      assert Fits(db.pages, id);
      RestoreRootShape(db, actor, id);
    }
  }

  lemma RestoreAccepted(db: Db, workspace: Id, actor: Id, id: Id)
    requires Inv(db.pages) && id in db.pages && db.pages[id].workspace == workspace
    requires db.pages[id].deletedRoot == Some(id)
    ensures RestoreStep(db, workspace, actor, id).1.Done?
  {
    RestoreShape(db, workspace, actor, id);
  }

  lemma CommitShape(db: Db, step: Step)
    requires Inv(db.pages)
    ensures var (next, outcome) := Apply(db, step);
            if outcome.Done? then Committed(db.pages, next.pages, step, outcome.page) else next == db
  {
    match step
    case Create(workspace, actor, request, newId, generated) =>
      CreateShape(db, workspace, actor, request, newId, generated);
    case Move(workspace, actor, page, parent, index) => MoveShape(db, workspace, actor, page, parent, index);
    case Patch(workspace, actor, page, base, change, written) =>
      PatchShape(db, workspace, actor, page, base, change, written);
    case Delete(workspace, actor, page, at) => DeleteShape(db, workspace, actor, page, at);
    case Restore(workspace, actor, page) => RestoreShape(db, workspace, actor, page);
  }

  lemma {:induction false} FirstFreeIsFree(t: Table, candidates: seq<string>)
    ensures FirstFree(t, candidates).Some? ==>
              FirstFree(t, candidates).value in candidates && !ShortIdUsed(t, FirstFree(t, candidates).value)
    ensures FirstFree(t, candidates).None? ==> forall s | s in candidates :: ShortIdUsed(t, s)
  {
    if candidates != [] {
      FirstFreeIsFree(t, candidates[1..]);
      assert candidates == [candidates[0]] + candidates[1..];
    }
  }

  // ---- Paths after a change ----

  /** When one page changes its parent, to one that is not under it, every path through it is rerouted
      there and every other stays. */
  lemma Reparent(t: Table, u: Table, id: Id)
    requires Rooted(t) && id in t && u.Keys == t.Keys
    requires forall x | x in t && x != id :: u[x].parent == t[x].parent
    requires u[id].parent.Some? ==> u[id].parent.value in t && !Under(t, id, u[id].parent.value)
    ensures Rooted(u)
    ensures forall x | x in t && !Under(t, id, x) :: PathOf(u, x) == PathOf(t, x)
    ensures forall x | x in t && Under(t, id, x) :: PathOf(u, x) == Rerouted(t, u, id, x)
  {
    forall x | x in t ensures HasPath(u, x) {
      ReparentPath(t, u, id, x);
    }
    forall x | x in t
      ensures PathOf(u, x) == if Under(t, id, x) then Rerouted(t, u, id, x) else PathOf(t, x)
    {
      ReparentPath(t, u, id, x);
      PathUnique(u, x, PathOf(u, x), if Under(t, id, x) then Rerouted(t, u, id, x) else PathOf(t, x));
    }
  }

  /** The path up to `id`, then the path of its new parent. */
  ghost function Rerouted(t: Table, u: Table, id: Id, x: Id): seq<Id>
    requires Rooted(t) && Under(t, id, x) && id in u && (u[id].parent.Some? ==> u[id].parent.value in t)
  {
    PathOf(t, x)[..IndexOf(PathOf(t, x), id) + 1]
    + if u[id].parent.Some? then PathOf(t, u[id].parent.value) else []
  }

  lemma ReparentPath(t: Table, u: Table, id: Id, x: Id)
    requires Rooted(t) && id in t && u.Keys == t.Keys && x in t
    requires forall y | y in t && y != id :: u[y].parent == t[y].parent
    requires u[id].parent.Some? ==> u[id].parent.value in t && !Under(t, id, u[id].parent.value)
    ensures IsPath(u, x, if Under(t, id, x) then Rerouted(t, u, id, x) else PathOf(t, x))
    ensures HasPath(u, x)
  {
    var path := PathOf(t, x);
    if Under(t, id, x) {
      PathDistinct(t, x);
      var k := IndexOf(path, id);
      var route := Rerouted(t, u, id, x);
      forall i | 0 <= i < |route| ensures route[i] in u && u[route[i]].parent == Above(route, i) {
        if i < k {
          assert route[i] == path[i] && path[i] != path[k] && Above(path, i) == Some(path[i + 1]);
        } else if i > k {
          var rest := PathOf(t, u[id].parent.value);
          assert route[i] == rest[i - k - 1] && Above(route, i) == Above(rest, i - k - 1);
        }
      }
      assert IsPath(u, x, route);
    } else {
      assert IsPath(u, x, path);
    }
  }

  /** A page under `id` stays under it when only the parent of `id` changes. */
  lemma {:induction false} StillUnder(t: Table, u: Table, id: Id, x: Id)
    requires Rooted(t) && Rooted(u) && u.Keys == t.Keys && Under(t, id, x)
    requires forall y | y in t && y != id :: u[y].parent == t[y].parent
    ensures Under(u, id, x)
    decreases Depth(t, x)
  {
    if x == id {
      assert PathOf(u, id)[0] == id;
    } else {
      PathStep(t, x);
      PathStep(u, x);
      StillUnder(t, u, id, t[x].parent.value);
    }
  }

  /** A parent below the page itself makes a cycle. */
  lemma CycleUnrooted(t: Table, u: Table, id: Id)
    requires Rooted(t) && u.Keys == t.Keys && id in t
    requires forall y | y in t && y != id :: u[y].parent == t[y].parent
    requires u[id].parent.Some? && Under(t, id, u[id].parent.value)
    ensures !Rooted(u)
  {
    if Rooted(u) {
      StillUnder(t, u, id, u[id].parent.value);
      ParentNotUnder(u, id);
      assert false;
    }
  }

  /** When parents stay, paths stay. */
  lemma SameParents(t: Table, u: Table)
    requires Rooted(t) && t.Keys <= u.Keys
    requires forall x | x in t :: u[x].parent == t[x].parent
    ensures forall x | x in t :: IsPath(u, x, PathOf(t, x)) && HasPath(u, x)
    ensures Rooted(u) ==> forall x | x in t :: PathOf(u, x) == PathOf(t, x)
  {
    forall x | x in t ensures IsPath(u, x, PathOf(t, x)) && HasPath(u, x) {
      PathFrame(t, u, x);
    }
    if Rooted(u) {
      forall x | x in t ensures PathOf(u, x) == PathOf(t, x) { PathFrame(t, u, x); }
    }
  }

  // ---- The invariant is kept ----

  /** When parents and short ids stay, only the pages themselves have to fit. */
  lemma SameColumns(t: Table, u: Table)
    requires Rooted(t) && ShortIdsUnique(t) && u.Keys == t.Keys
    requires forall x | x in t :: u[x].parent == t[x].parent && u[x].shortId == t[x].shortId
    requires forall x {:trigger Fits(u, x)} | x in u :: Fits(u, x)
    ensures Inv(u)
    ensures forall x | x in t :: PathOf(u, x) == PathOf(t, x)
  {
    SameParents(t, u);
  }

  lemma CreatedPaths(t: Table, u: Table, id: Id, parent: Option<Id>)
    requires Inv(t) && Created(t, u, id, parent)
    ensures Rooted(u)
    ensures PathOf(u, id) == [id] + if parent.Some? then PathOf(t, parent.value) else []
    ensures forall x | x in t :: PathOf(u, x) == PathOf(t, x)
  {
    SameParents(t, u);
    var rest := if parent.Some? then PathOf(t, parent.value) else [];
    PathExtend(u, id, rest);
    PathUnique(u, id, [id] + rest, PathOf(u, id));
  }

  lemma CreatedKeepsInv(t: Table, u: Table, id: Id, parent: Option<Id>)
    requires Inv(t) && Created(t, u, id, parent)
    ensures Inv(u)
  {
    CreatedPaths(t, u, id, parent);
    CreatedShortIds(t, u, id, parent);
    forall x | x in u ensures Fits(u, x) { CreatedFits(t, u, id, parent, x); }
  }

  lemma CreatedShortIds(t: Table, u: Table, id: Id, parent: Option<Id>)
    requires ShortIdsUnique(t) && Created(t, u, id, parent)
    ensures ShortIdsUnique(u)
  {
    assert forall x | x in t :: u[x].shortId == t[x].shortId && u[x].shortId != u[id].shortId;
  }

  lemma CreatedFits(t: Table, u: Table, id: Id, parent: Option<Id>, x: Id)
    requires Created(t, u, id, parent) && x in u
    requires forall y {:trigger Fits(t, y)} | y in t :: Fits(t, y)
    ensures Fits(u, x)
  {
    if x in t { assert Fits(t, x); } else if parent.Some? { assert Fits(t, parent.value); }
  }

  lemma MovedKeepsInv(t: Table, u: Table, id: Id, parent: Option<Id>)
    requires Inv(t) && Moved(t, u, id, parent)
    ensures Inv(u)
  {
    Reparent(t, u, id);
    forall x | x in u ensures Fits(u, x) { MovedFits(t, u, id, parent, x); }
  }

  lemma MovedFits(t: Table, u: Table, id: Id, parent: Option<Id>, x: Id)
    requires Rooted(t) && Moved(t, u, id, parent) && x in t && Fits(t, x) && Fits(t, id)
    ensures Fits(u, x)
  {
  }

  lemma PatchedKeepsInv(t: Table, u: Table, id: Id)
    requires Inv(t) && Patched(t, u, id)
    ensures Inv(u)
    ensures forall x | x in t :: PathOf(u, x) == PathOf(t, x)
  {
    forall x | x in u ensures Fits(u, x) { assert Fits(t, x); }
    SameColumns(t, u);
  }

  /** A live page under a page that is taken is taken too. */
  lemma TakenClosed(t: Table, root: Id, x: Id)
    requires Inv(t) && x in t && t[x].parent.Some? && x != root
    ensures t[x].parent.value in t
    ensures x in Taken(t, root) ==> t[x].parent.value in Taken(t, root)
    ensures t[x].Live() && t[x].parent.value in Taken(t, root) ==> x in Taken(t, root)
  {
    PathStep(t, x);
    assert Fits(t, x);
  }

  lemma TrashedKeepsInv(t: Table, u: Table, root: Id, at: Time)
    requires Inv(t) && Trashed(t, u, root, at)
    ensures Inv(u)
    ensures forall x | x in t :: PathOf(u, x) == PathOf(t, x)
  {
    forall x | x in u ensures Fits(u, x) { TrashedFits(t, u, root, at, x); }
    SameColumns(t, u);
  }

  lemma TrashedFits(t: Table, u: Table, root: Id, at: Time, x: Id)
    requires Inv(t) && Trashed(t, u, root, at) && x in t
    ensures Fits(u, x)
  {
    assert Fits(t, x);
    PathStep(t, x);
    if t[x].parent.Some? && x != root { TakenClosed(t, root, x); }
  }

  /** A page's own parent is not under it. */
  lemma ParentNotUnder(t: Table, id: Id)
    requires Rooted(t) && id in t && t[id].parent.Some?
    ensures t[id].parent.value in t && !Under(t, id, t[id].parent.value)
  {
    PathStep(t, id);
    PathDistinct(t, id);
    var rest := PathOf(t, t[id].parent.value);
    forall i | 0 <= i < |rest| ensures rest[i] != id {
      assert PathOf(t, id)[0] == id && PathOf(t, id)[i + 1] == rest[i];
    }
  }

  lemma RestoredKeepsInv(t: Table, u: Table, root: Id)
    requires Inv(t) && Restored(t, u, root)
    ensures Inv(u)
  {
    if t[root].parent.Some? { ParentNotUnder(t, root); }
    RestoredColumns(t, u, root);
    Reparent(t, u, root);
    forall x | x in u ensures Fits(u, x) {
      RestoredFits(t, u, root, x);
    }
  }

  lemma RestoredColumns(t: Table, u: Table, root: Id)
    requires Restored(t, u, root)
    ensures forall x | x in t && x != root :: u[x].parent == t[x].parent
    ensures forall x | x in t :: u[x].shortId == t[x].shortId
  {
    forall x | x in t && x != root ensures u[x].parent == t[x].parent && u[x].shortId == t[x].shortId {
      assert RestoredRow(t, u, root, x);
    }
  }

  lemma RestoredFits(t: Table, u: Table, root: Id, x: Id)
    requires Inv(t) && Restored(t, u, root) && x in t
    ensures Fits(u, x)
  {
    assert Fits(t, x);
    if x != root { assert RestoredRow(t, u, root, x); }
    if t[x].parent.Some? {
      var parent := t[x].parent.value;
      assert Fits(t, parent);
      if parent != root { assert RestoredRow(t, u, root, parent); }
    }
  }

  lemma ApplyKeepsInv(db: Db, step: Step)
    requires Inv(db.pages)
    ensures Inv(Apply(db, step).0.pages)
  {
    CommitShape(db, step);
    var (next, outcome) := Apply(db, step);
    if outcome.Done? {
      match step
      case Create(_, _, request, _, _) => CreatedKeepsInv(db.pages, next.pages, outcome.page, request.parent);
      case Move(_, _, page, parent, _) => MovedKeepsInv(db.pages, next.pages, page, parent);
      case Patch(_, _, page, _, _, _) => PatchedKeepsInv(db.pages, next.pages, page);
      case Delete(_, _, page, at) => TrashedKeepsInv(db.pages, next.pages, page, at);
      case Restore(_, _, page) =>
        RestoredKeepsInv(db.pages, next.pages, page);
    }
  }

  // ---- Runs ----

  ghost function Next(db: Db, step: Step): (next: Db)
    requires Inv(db.pages)
    ensures Inv(next.pages)
  {
    ApplyKeepsInv(db, step);
    Apply(db, step).0
  }

  /** The pages after a sequence of requests. */
  ghost function Run(db: Db, steps: seq<Step>): (after: Db)
    requires Inv(db.pages)
    ensures Inv(after.pages)
    decreases |steps|
  {
    if steps == [] then db else Run(Next(db, steps[0]), steps[1..])
  }

  /** In every state a run from an empty instance reaches, every chain of parents ends at the root, a
      live page's parent is live and in its workspace, and a trashed page that is not the root of its
      trash has its parent in the same trash, below that root. */
  lemma ReachableForest(steps: seq<Step>)
    ensures var t := Run(Db(map[], []), steps).pages;
            && (forall id | id in t :: HasPath(t, id))
            && (forall id | id in t && t[id].parent.Some? ::
                  t[id].parent.value in t && t[t[id].parent.value].workspace == t[id].workspace)
            && (forall id | id in t && t[id].Live() && t[id].parent.Some? :: t[t[id].parent.value].Live())
            && (forall id | id in t && !t[id].Live() ::
                  && t[id].deletedRoot.Some?
                  && Under(t, t[id].deletedRoot.value, id)
                  && t[id].deletedRoot.value in t
                  && t[t[id].deletedRoot.value].deletedRoot == t[id].deletedRoot
                  && (t[id].deletedRoot.value != id ==>
                        t[id].parent.Some? && t[t[id].parent.value].deletedRoot == t[id].deletedRoot))
  {
    var t := Run(Db(map[], []), steps).pages;
    forall id | id in t && !t[id].Live()
      ensures t[id].deletedRoot.Some? && Under(t, t[id].deletedRoot.value, id) && t[id].deletedRoot.value in t
      ensures t[t[id].deletedRoot.value].deletedRoot == t[id].deletedRoot
    {
      assert Fits(t, id);
      TrashRootAbove(t, id);
    }
    assert forall id | id in t :: Fits(t, id);
  }

  // ---- Repeated creates ----

  /** No page goes, and none changes its workspace, its creator or its short id. */
  ghost predicate PagesStay(t: Table, u: Table) {
    forall x | x in t ::
      x in u && u[x].workspace == t[x].workspace && u[x].createdBy == t[x].createdBy && u[x].shortId == t[x].shortId
  }

  lemma CommittedPagesStay(t: Table, u: Table, step: Step, page: Id)
    requires Inv(t) && Committed(t, u, step, page)
    ensures PagesStay(t, u)
  {
    if step.Restore? {
      forall x | x in t && x != page ensures u[x].workspace == t[x].workspace && u[x].createdBy == t[x].createdBy
      {
        assert RestoredRow(t, u, page, x);
      }
      RestoredColumns(t, u, page);
    }
  }

  lemma {:induction false} RunPagesStay(db: Db, steps: seq<Step>)
    requires Inv(db.pages)
    ensures PagesStay(db.pages, Run(db, steps).pages)
    decreases |steps|
  {
    if steps != [] {
      var next := Next(db, steps[0]);
      CommitShape(db, steps[0]);
      if Apply(db, steps[0]).1.Done? {
        CommittedPagesStay(db.pages, next.pages, steps[0], Apply(db, steps[0]).1.page);
      }
      RunPagesStay(next, steps[1..]);
    }
  }

  /** A create with an id of its own, sent again after any other requests, is answered with the page and writes
      nothing; from another user or in another workspace it is refused. */
  lemma CreateRepeats(db: Db, create: Step, between: seq<Step>, workspace: Id, actor: Id, newId: Id,
                      generated: seq<string>)
    requires Inv(db.pages) && create.Create? && create.request.id.Some?
    requires Apply(db, create).1.Done?
    ensures var later := Run(Next(db, create), between);
            var id := create.request.id.value;
            CreateStep(later, workspace, actor, create.request, newId, generated)
            == (later, if workspace == create.workspace && actor == create.actor then Unchanged(id)
                else Refused(IdTaken))
  {
    var made := Next(db, create);
    RunPagesStay(made, between);
    CreateMakes(db, create);
  }

  lemma CreateMakes(db: Db, create: Step)
    requires Inv(db.pages) && create.Create? && create.request.id.Some? && Apply(db, create).1.Done?
    ensures var u := Apply(db, create).0.pages;
            var id := create.request.id.value;
            id in u && u[id].workspace == create.workspace && u[id].createdBy == create.actor
  {
  }
}
