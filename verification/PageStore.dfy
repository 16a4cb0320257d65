/** The `pages` table and its history as the service changes them: queries as loops, and one method for
    each request, run as a transaction that commits or leaves both as they were. */
module PageStore {
  import opened Base
  import opened Keys
  import opened ChangeLog
  import opened Forest
  import Steps = PageSteps
  import opened PageSteps
  import PageTree
  import PageHistory
  import PageAnswers

  // ---- Levels of a subtree ----

  lemma LevelStep(t: Table, root: Id, x: Id)
    requires Inv(t) && x in t && root in t
    ensures x == root ==> Under(t, root, x) && Level(t, root, x) == 1
    ensures x != root && Under(t, root, x) ==>
              && t[x].parent.Some? && t[x].parent.value in t && Under(t, root, t[x].parent.value)
              && Level(t, root, x) == Level(t, root, t[x].parent.value) + 1
    ensures t[x].parent.Some? && t[x].parent.value in t && Under(t, root, t[x].parent.value) ==>
              Under(t, root, x) && x != root
  {
    PathStep(t, x);
    PathDistinct(t, x);
    assert PathOf(t, x)[0] == x;
    if t[x].parent.Some? {
      PageTree.ParentNotUnder(t, x);
      var parent := t[x].parent.value;
      PathDistinct(t, parent);
      if Under(t, root, parent) {
        assert PathOf(t, x)[IndexOf(PathOf(t, parent), root) + 1] == root;
        if x == root { assert false; }
      }
    }
  }

  /** The live pages of a subtree at one level. */
  ghost function AtLevel(t: Table, root: Id, level: nat): set<Id>
    requires Rooted(t)
  {
    set x | x in Taken(t, root) && Level(t, root, x) == level
  }

  function LiveChildren(t: Table, parents: set<Id>): set<Id> {
    set x | x in t && t[x].Live() && t[x].parent.Some? && t[x].parent.value in parents
  }

  /** The next level is the live children of the last. */
  lemma NextLevel(t: Table, root: Id, level: nat)
    requires Inv(t) && root in t && level >= 1
    ensures AtLevel(t, root, level + 1) == LiveChildren(t, AtLevel(t, root, level))
  {
    forall x | x in t
      ensures x in AtLevel(t, root, level + 1)
         <==> t[x].Live() && t[x].parent.Some? && t[x].parent.value in AtLevel(t, root, level)
    {
      LevelStep(t, root, x);
      assert Fits(t, x);
      if t[x].parent.Some? { LevelStep(t, root, t[x].parent.value); }
    }
  }

  lemma FirstLevel(t: Table, root: Id)
    requires Inv(t) && root in t && t[root].Live()
    ensures AtLevel(t, root, 1) == {root}
  {
    forall x | x in t ensures x in AtLevel(t, root, 1) <==> x == root {
      LevelStep(t, root, x);
    }
  }

  /** A level that is taken has every level above it taken. */
  lemma {:induction false} LevelsAbove(t: Table, root: Id, x: Id, level: nat)
    requires Inv(t) && root in t && x in Taken(t, root) && 1 <= level <= Level(t, root, x)
    ensures AtLevel(t, root, level) != {}
    decreases Level(t, root, x)
  {
    LevelStep(t, root, x);
    assert Fits(t, x);
    if level == Level(t, root, x) {
      assert x in AtLevel(t, root, level);
    } else {
      LevelsAbove(t, root, t[x].parent.value, level);
    }
  }

  lemma HeightIsLast(t: Table, root: Id, height: nat)
    requires Inv(t) && root in t && t[root].Live()
    requires AtLevel(t, root, height + 1) == {} && (height >= 1 ==> AtLevel(t, root, height) != {})
    ensures height == Height(t, root)
  {
    var levels := Height(t, root);
    var x :| x in Taken(t, root) && Level(t, root, x) == levels;
    if height < Height(t, root) {
      LevelsAbove(t, root, x, height + 1);
    }
    if height >= 1 {
      var y :| y in AtLevel(t, root, height);
      assert Level(t, root, y) <= Height(t, root);
    }
  }

  lemma LevelWithin(t: Table, root: Id, level: nat)
    requires Inv(t) && root in t && t[root].Live() && AtLevel(t, root, level) != {}
    ensures level <= Height(t, root)
  {
    var height := Height(t, root);
    var x :| x in AtLevel(t, root, level);
    assert x in Taken(t, root);
  }

  ghost function LevelsBetween(t: Table, root: Id, first: nat, last: nat): set<Id>
    requires Rooted(t)
  {
    set x | x in Taken(t, root) && first <= Level(t, root, x) <= last
  }

  /** Every live page of a subtree but its root is between the second level and the last. */
  lemma AllLevels(t: Table, root: Id)
    requires Inv(t) && root in t && t[root].Live()
    ensures LevelsBetween(t, root, 2, Height(t, root)) == Taken(t, root) - {root}
  {
    var height := Height(t, root);
    forall x | x in Taken(t, root) ensures Level(t, root, x) <= height && (Level(t, root, x) < 2 <==> x == root) {
      LevelStep(t, root, x);
    }
  }

  // ---- Placements ----

  lemma PlacedBetween(t: Table, siblings: seq<Id>, index: Option<nat>, key: Key)
    requires forall x | x in siblings :: x in t
    requires var i: int := PlaceIndex(index, |siblings|);
             Between(KeyAt(t, siblings, i - 1), KeyAt(t, siblings, i)) == Some(key)
    ensures PlaceAmong(t, siblings, index) == Placement(key, t)
  {
  }

  lemma PlacedSpread(t: Table, siblings: seq<Id>, index: Option<nat>, keys: seq<Key>)
    requires forall x | x in siblings :: x in t
    requires keys == Spread(|siblings| + 1)
    requires var i: int := PlaceIndex(index, |siblings|);
             Between(KeyAt(t, siblings, i - 1), KeyAt(t, siblings, i)).None?
    ensures var i := PlaceIndex(index, |siblings|);
            PlaceAmong(t, siblings, index) == Placement(keys[i], Renumber(t, siblings, keys[..i] + keys[i + 1..]))
  {
  }

  lemma {:induction false} SameFirstFree(t: Table, u: Table, candidates: seq<string>)
    requires PageTree.RekeyedTable(t, u)
    ensures FirstFree(u, candidates) == FirstFree(t, candidates)
  {
    if candidates != [] {
      SameShortIds(t, u, candidates[0]);
      SameFirstFree(t, u, candidates[1..]);
    }
  }

  lemma SameShortIds(t: Table, u: Table, shortId: string)
    requires PageTree.RekeyedTable(t, u)
    ensures ShortIdUsed(u, shortId) <==> ShortIdUsed(t, shortId)
  {
    assert forall x | x in t :: PageTree.Rekeyed(t[x], u[x]);
  }

  class Store {
    var pages: Table
    var log: seq<PageRow>

    ghost function Contents(): Db
      reads this
    {
      Db(pages, log)
    }

    constructor ()
      ensures Contents() == Db(map[], [])
    {
      pages, log := map[], [];
    }

    // ---- Queries ----

    /** Follows the parents until there is none. */
    method PathToRoot(id: Id) returns (path: seq<Id>)
      requires Inv(pages)
      ensures path == if id in pages then PathOf(pages, id) else []
    {
      path := [];
      var row: Option<Id> := if id in pages then Some(id) else None;
      while row.Some?
        invariant row.Some? ==> id in pages && row.value in pages && path + PathOf(pages, row.value) == PathOf(pages,
            id)
        invariant row.None? ==> path == if id in pages then PathOf(pages, id) else []
        decreases if row.Some? then Depth(pages, row.value) else 0
      {
        PathStep(pages, row.value);
        path := path + [row.value];
        var parent := pages[row.value].parent;
        row := if parent.Some? && parent.value in pages then parent else None;
      }
    }

    /** How many levels the live subtree of a live page takes. */
    method SubtreeHeight(id: Id) returns (height: nat)
      requires Inv(pages) && id in pages && pages[id].Live()
      ensures height == Height(pages, id)
    {
      ghost var limit := Height(pages, id);
      height := 0;
      var level := {id};
      FirstLevel(pages, id);
      while level != {}
        invariant level == AtLevel(pages, id, height + 1)
        invariant height >= 1 ==> AtLevel(pages, id, height) != {}
        decreases limit - height
      {
        LevelWithin(pages, id, height + 1);
        NextLevel(pages, id, height + 1);
        height, level := height + 1, LiveChildren(pages, level);
      }
      HeightIsLast(pages, id, height);
    }

    /** The live pages under a live page, without it. */
    method LiveDescendants(root: Id) returns (down: set<Id>)
      requires Inv(pages) && root in pages && pages[root].Live()
      ensures down == Taken(pages, root) - {root}
    {
      ghost var depth := 1;
      FirstLevel(pages, root);
      NextLevel(pages, root, 1);
      var level := LiveChildren(pages, {root});
      down := {};
      while level != {}
        invariant level == AtLevel(pages, root, depth + 1)
        invariant down == LevelsBetween(pages, root, 2, depth)
        invariant depth >= 1 && AtLevel(pages, root, depth) != {}
        decreases Height(pages, root) - depth
      {
        LevelWithin(pages, root, depth + 1);
        NextLevel(pages, root, depth + 1);
        down, level := down + level, LiveChildren(pages, level);
        depth := depth + 1;
      }
      HeightIsLast(pages, root, depth);
      AllLevels(pages, root);
    }

    /** The live children of a parent, without `except`, in their order. */
    method ChildrenOf(workspace: Id, parent: Option<Id>, except: Option<Id>) returns (ids: seq<Id>)
      ensures ids == Children(pages, workspace, parent, except)
    {
      var rest := set x | x in pages && pages[x].workspace == workspace && pages[x].parent == parent
                          && pages[x].Live() && Some(x) != except;
      ghost var kids := rest;
      assert kids == Kids(pages, workspace, parent, except);
      ids := [];
      while rest != {}
        invariant rest <= kids
        invariant Lists(pages, ids, kids - rest)
        invariant forall x, y | x in ids && y in rest :: Before(pages, x, y)
        decreases rest
      {
        FirstExists(pages, rest);
        var first :| first in rest && forall x | x in rest :: x == first || Before(pages, first, x);
        assert kids - (rest - {first}) == (kids - rest) + {first};
        ids, rest := ids + [first], rest - {first};
      }
      assert kids - rest == kids;
      ChildrenAre(pages, workspace, parent, except, ids);
    }

    // ---- Writes ----

    /** Writes one key for each listed page. */
    method SetPositions(ids: seq<Id>, keys: seq<Key>)
      requires |ids| == |keys| && Distinct(ids) && forall x | x in ids :: x in pages
      modifies `pages
      ensures pages == Renumber(old(pages), ids, keys)
    {
      ghost var before := pages;
      for i := 0 to |ids|
        invariant pages.Keys == before.Keys
        invariant forall k | 0 <= k < i :: pages[ids[k]] == before[ids[k]].(position := keys[k])
        invariant forall x | x in before && x !in ids[..i] :: pages[x] == before[x]
      {
        assert ids[i] !in ids[..i];
        pages := pages[ids[i] := pages[ids[i]].(position := keys[i])];
      }
      forall x | x in before ensures pages[x] == Renumber(before, ids, keys)[x] {
        if x in ids { assert x == ids[IndexOf(ids, x)]; }
      }
    }

    /** Asks for the key at that place, and renumbers the list when none fits. */
    method Place(workspace: Id, parent: Option<Id>, index: Option<nat>, except: Option<Id>) returns (key: Key)
      modifies `pages
      ensures Placement(key, pages) == Steps.Place(old(pages), workspace, parent, index, except)
    {
      var children := ChildrenOf(workspace, parent, except);
      OrderedDistinct(pages, children);
      var i: int := PlaceIndex(index, |children|);
      var between := Between(KeyAt(pages, children, i - 1), KeyAt(pages, children, i));
      if between.Some? {
        PlacedBetween(pages, children, index, between.value);
        return between.value;
      }
      var keys := Spread(|children| + 1);
      PlacedSpread(pages, children, index, keys);
      key := keys[i];
      SetPositions(children, keys[..i] + keys[i + 1..]);
    }

    /** The depth of a parent that is live, in the workspace and not under the page that moves. */
    method CheckParent(workspace: Id, parent: Id, moved: Option<Id>) returns (r: Result<nat>)
      requires Inv(pages)
      ensures r == Steps.CheckParent(pages, workspace, parent, moved)
    {
      if !LiveIn(pages, workspace, parent) {
        return Failure(ParentNotFound);
      }
      var path := PathToRoot(parent);
      if moved.Some? && moved.value in path {
        return Failure(PageCycle);
      }
      r := Success(|path|);
    }

    /** The live pages under `root` go to the trash with it. */
    method TrashDescendants(root: Id, at: Time)
      requires Inv(pages) && root in pages && pages[root].Live()
      modifies `pages
      ensures pages == Steps.TrashDescendants(old(pages), root, at)
    {
      var down := LiveDescendants(root);
      pages := map x | x in pages ::
        if x in down
        then pages[x].(deletedAt := Some(at), deletedRoot := Some(root), version := pages[x].version + 1)
        else pages[x];
    }

    /** The pages trashed with `root` come back. */
    method RestoreDescendants(root: Id)
      modifies `pages
      ensures pages == Steps.RestoreDescendants(old(pages), root)
      ensures LivePages(pages) == LivePages(old(pages)) + (TrashedWith(old(pages), root) - {root})
      ensures TrashedWith(pages, root) == TrashedWith(old(pages), root) * {root}
      ensures forall other | other != root :: TrashedWith(pages, other) == TrashedWith(old(pages), other)
      ensures forall x | x in pages && (x == root || x !in TrashedWith(old(pages), root)) :: pages[x] == old(pages)[x]
    {
      pages := map x | x in pages ::
        if pages[x].deletedRoot == Some(root) && x != root
        then pages[x].(deletedAt := None, deletedRoot := None, version := pages[x].version + 1)
        else pages[x];
    }

    /** One row written and logged as its next version; `false`, and nothing written, when all fields are equal. */
    method UpdatePage(id: Id, current: Page, next: PageState, actor: Id) returns (updated: bool)
      requires id in pages
      modifies this
      ensures var r := Steps.Update(old(Contents()), id, current, next, actor);
              updated == r.Some? && Contents() == r.GetOr(old(Contents()))
      ensures updated <==> next != StateOf(current)
      ensures if updated then PageHistory.Saved(old(Contents()), Contents(), id, StateOf(current), next, actor)
              else Contents() == old(Contents())
    {
      PageHistory.UpdateSaves(Contents(), id, current, next, actor);
      var diff := PageDiff(StateOf(current), next);
      if diff == [] && next.deletedRoot == current.deletedRoot {
        return false;
      }
      pages := pages[id := Written(pages[id], next)];
      log := log + Rows(id, pages[id].version, actor, diff);
      return true;
    }

    // ---- Requests ----

    /** Inserts a page last under its parent, trying a few short ids made here when none was sent. */
    method CreateUnder(workspace: Id, actor: Id, request: CreateRequest, id: Id, generated: seq<string>)
      returns (outcome: Outcome)
      requires |generated| >= SHORT_ID_ATTEMPTS
      modifies this
      ensures (Contents(), outcome) == Steps.CreateUnder(old(Contents()), workspace, actor, request, id, generated)
    {
      var begun := pages;
      PageTree.PlaceRekeys(pages, workspace, request.parent, None, None);
      var position := Place(workspace, request.parent, None, None);
      ghost var candidates := generated[..SHORT_ID_ATTEMPTS];
      SameFirstFree(begun, pages, candidates);
      if request.shortId.Some? { SameShortIds(begun, pages, request.shortId.value); }
      var attempts := 0;
      while true
        invariant attempts < SHORT_ID_ATTEMPTS
        invariant attempts > 0 ==> request.shortId.None? && id !in pages
        invariant FirstFree(pages, candidates) == FirstFree(pages, candidates[attempts..])
        invariant Contents() == old(Contents()).(pages := Steps.Place(begun, workspace, request.parent, None,
            None).pages)
        decreases SHORT_ID_ATTEMPTS - attempts
      {
        assert candidates[attempts] == generated[attempts];
        var shortId := if request.shortId.Some? then request.shortId.value else generated[attempts];
        attempts := attempts + 1;
        if id in pages {
          pages := begun; // rolled back; then the page that is there
          return SameRequest(pages, id, workspace, actor);
        }
        if !ShortIdUsed(pages, shortId) {
          pages := pages[id := NewPage(workspace, actor, request, position, shortId)];
          return Done(id);
        }
        if request.shortId.Some? {
          pages := begun;
          return Refused(ShortIdTaken);
        }
        if attempts >= SHORT_ID_ATTEMPTS {
          pages := begun;
          return Refused(Internal);
        }
      }
    }

    method CreatePage(workspace: Id, actor: Id, request: CreateRequest, newId: Id, generated: seq<string>)
      returns (outcome: Outcome)
      requires Inv(pages) && |generated| >= SHORT_ID_ATTEMPTS
      modifies this
      ensures (Contents(), outcome) == CreateStep(old(Contents()), workspace, actor, request, newId, generated)
      ensures PageAnswers.CreateAnswers(old(pages), workspace, actor, request, newId, generated, outcome)
      ensures outcome.Done? ==>
                && outcome.page in pages
                && PageAnswers.IsAsSent(old(pages), pages[outcome.page], workspace, actor, request, generated)
      ensures Inv(pages)
    {
      PageAnswers.CreateAnswer(Contents(), workspace, actor, request, newId, generated);
      PageAnswers.CreatedHolds(Contents(), workspace, actor, request, newId, generated);
      PageTree.ApplyKeepsInv(Contents(), Create(workspace, actor, request, newId, generated));
      if request.id.Some? && request.id.value in pages {
        return SameRequest(pages, request.id.value, workspace, actor);
      }
      if request.parent.Some? {
        var depth := CheckParent(workspace, request.parent.value, None);
        if depth.Failure? {
          return Refused(depth.error);
        }
        if depth.value + 1 > MAX_DEPTH {
          return Refused(TooDeep);
        }
      }
      outcome := CreateUnder(workspace, actor, request, request.id.GetOr(newId), generated);
    }

    /** Puts a page where nothing forbids it, unless it is there already. */
    method MoveTo(workspace: Id, actor: Id, id: Id, parent: Option<Id>, index: nat) returns (outcome: Outcome)
      requires LiveIn(pages, workspace, id)
      modifies this
      ensures (Contents(), outcome) == Steps.MoveTo(old(Contents()), workspace, actor, id, parent, index)
    {
      var current := pages[id];
      ghost var db := Contents();
      if parent == current.parent {
        var siblings := ChildrenOf(workspace, current.parent, Some(id));
        if Min(index, |siblings|) == Rank(pages, id, siblings) {
          return Unchanged(id);
        }
      }
      var begun := pages;
      PageTree.PlaceRekeys(pages, workspace, parent, Some(index), Some(id));
      var position := Place(workspace, parent, Some(index), Some(id));
      ghost var placed := Steps.Place(db.pages, workspace, parent, Some(index), Some(id));
      assert Contents() == Db(placed.pages, db.log);
      assert !AlreadyThere(db.pages, workspace, id, parent, index);
      var updated := UpdatePage(id, current, StateOf(current).(parent := parent, position := position), actor);
      if !updated {
        assert MoveCommit(db, placed, id, parent, actor).None?;
        pages := begun; // the transaction is dropped
        return Unchanged(id);
      }
      assert MoveCommit(db, placed, id, parent, actor) == Some(Contents());
      outcome := Done(id);
    }

    method MovePage(workspace: Id, actor: Id, id: Id, parent: Option<Id>, index: nat) returns (outcome: Outcome)
      requires Inv(pages)
      modifies this
      ensures (Contents(), outcome) == MoveStep(old(Contents()), workspace, actor, id, parent, index)
      ensures Inv(pages)
    {
      PageTree.ApplyKeepsInv(Contents(), Move(workspace, actor, id, parent, index));
      if !LiveIn(pages, workspace, id) {
        return Refused(NotFound);
      }
      var depth := Success(0);
      if parent.Some? {
        depth := CheckParent(workspace, parent.value, Some(id));
        if depth.Failure? {
          return Refused(depth.error);
        }
      }
      var height := SubtreeHeight(id);
      if depth.value + height > MAX_DEPTH {
        return Refused(TooDeep);
      }
      outcome := MoveTo(workspace, actor, id, parent, index);
    }

    method PatchPage(workspace: Id, actor: Id, id: Id, base: int, change: ChangeSet, written: bool)
      returns (outcome: Outcome)
      requires Inv(pages)
      modifies this
      ensures (Contents(), outcome) == PatchStep(old(Contents()), workspace, actor, id, base, change, written)
      ensures PageAnswers.PatchAnswers(old(Contents()), workspace, id, base, change, written, outcome)
      ensures Inv(pages)
    {
      PageAnswers.PatchAnswer(Contents(), workspace, actor, id, base, change, written);
      PageTree.ApplyKeepsInv(Contents(), Patch(workspace, actor, id, base, change, written));
      if change.IsEmpty() {
        return Refused(EmptyRequest);
      }
      if !LiveIn(pages, workspace, id) {
        return Refused(NotFound);
      }
      var current := pages[id];
      if base > current.version {
        return Refused(FutureVersion);
      }
      var found := Conflicts(log, id, base, SentFields(change));
      if found != map[] {
        return Refused(EditConflict(found));
      }
      if change.kind.Some? && change.kind.value != current.kind {
        if written || exists child | child in pages :: pages[child].parent == Some(id) && pages[child].Live() {
          return Refused(PageNotEmpty);
        }
      }
      var updated := UpdatePage(id, current, PatchedState(current, change), actor);
      outcome := if updated then Done(id) else Unchanged(id);
    }

    /** A live page goes to the trash, and what is under it goes along. */
    method Trash(actor: Id, id: Id, at: Time)
      requires Inv(pages) && id in pages && pages[id].Live()
      modifies this
      ensures var next := StateOf(old(pages)[id]).(deletedAt := Some(at), deletedRoot := Some(id));
              Some(Contents()) == Steps.Update(Db(Steps.TrashDescendants(old(pages), id, at), old(log)), id,
                                               old(pages)[id], next, actor)
    {
      var current := pages[id];
      TrashDescendants(id, at);
      var _ := UpdatePage(id, current, StateOf(current).(deletedAt := Some(at), deletedRoot := Some(id)), actor);
    }

    method DeletePage(workspace: Id, actor: Id, id: Id, at: Time) returns (outcome: Outcome)
      requires Inv(pages)
      modifies this
      ensures (Contents(), outcome) == DeleteStep(old(Contents()), workspace, actor, id, at)
      ensures Inv(pages)
    {
      PageTree.ApplyKeepsInv(Contents(), Delete(workspace, actor, id, at));
      if id !in pages || pages[id].workspace != workspace {
        return Refused(NotFound);
      }
      if !pages[id].Live() {
        return Unchanged(id);
      }
      Trash(actor, id, at);
      outcome := Done(id);
    }

    /** A page leaves the trash under this parent, and what went with it comes along. */
    method BringBack(actor: Id, id: Id, parent: Option<Id>, position: Key) returns (updated: bool)
      requires id in pages && !pages[id].Live()
      modifies this
      ensures updated
      ensures var next := StateOf(old(pages)[id]).(parent := parent, position := position, deletedAt := None,
                                                   deletedRoot := None);
              Some(Contents()) == Steps.Update(Db(Steps.RestoreDescendants(old(pages), id), old(log)), id,
                                               old(pages)[id], next, actor)
    {
      var current := pages[id];
      var next := StateOf(current).(parent := parent, position := position, deletedAt := None, deletedRoot := None);
      RestoreDescendants(id);
      updated := UpdatePage(id, current, next, actor);
    }

    /** Brings back the root of a trash, at its old place or last at the root of the workspace. */
    method RestoreRoot(actor: Id, id: Id) returns (outcome: Outcome)
      requires id in pages && !pages[id].Live()
      modifies this
      ensures (Contents(), outcome) == Steps.RestoreRoot(old(Contents()), actor, id)
    {
      var current := pages[id];
      var parent, position := current.parent, current.position;
      if !ParentAlive(pages, current) {
        PageTree.PlaceRekeys(pages, current.workspace, None, None, None);
        parent := None;
        position := Place(current.workspace, None, None, None);
      }
      var updated := BringBack(actor, id, parent, position);
      outcome := if updated then Done(id) else Refused(Internal);
    }

    method RestorePage(workspace: Id, actor: Id, id: Id) returns (outcome: Outcome)
      requires Inv(pages)
      modifies this
      ensures (Contents(), outcome) == RestoreStep(old(Contents()), workspace, actor, id)
      ensures Inv(pages)
    {
      PageTree.ApplyKeepsInv(Contents(), Restore(workspace, actor, id));
      if id !in pages || pages[id].workspace != workspace {
        return Refused(NotFound);
      }
      if pages[id].Live() {
        return Unchanged(id);
      }
      if pages[id].deletedRoot != Some(id) {
        return Refused(TrashedWithParent);
      }
      outcome := RestoreRoot(actor, id);
    }
  }

  lemma FirstExists(t: Table, pages: set<Id>)
    requires pages != {} && forall x | x in pages :: x in t
    ensures exists first :: first in pages && forall x | x in pages :: x == first || Before(t, first, x)
  {
    var ids := InOrder(t, pages);
    ListsEmpty(t, ids, pages);
    assert ids[0] in pages;
    forall x | x in pages ensures x == ids[0] || Before(t, ids[0], x) {
      var i := IndexOf(ids, x);
    }
  }
}
