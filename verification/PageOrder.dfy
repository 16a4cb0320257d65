/** The order of siblings: where a created, moved or restored page lands, and that nothing else moves. */
module PageOrder {
  import opened Base
  import opened Keys
  import opened Forest
  import opened PageSteps
  import opened PageTree

  /** `ids` with `id` at `index`. */
  function InsertAt(ids: seq<Id>, index: nat, id: Id): seq<Id>
    requires index <= |ids|
  {
    ids[..index] + [id] + ids[index..]
  }

  lemma InsertAtHolds(ids: seq<Id>, index: nat, id: Id)
    requires index <= |ids|
    ensures forall x :: x in InsertAt(ids, index, id) <==> x in ids || x == id
  {
    assert ids == ids[..index] + ids[index..];
  }

  // ---- What a placement does to an order ----

  lemma RenumberedOrder(t: Table, u: Table, ids: seq<Id>, i: nat, id: Id, keys: seq<Key>)
    requires Distinct(ids) && i <= |ids| && keys == Spread(|ids| + 1)
    requires id in u && u[id].position == keys[i] && forall x | x in ids :: x in t && x in u
    requires var placed := Renumber(t, ids, keys[..i] + keys[i + 1..]);
             forall x | x in ids :: u[x].position == placed[x].position
    ensures Ordered(u, InsertAt(ids, i, id))
  {
    RenumberPositions(t, ids, keys[..i] + keys[i + 1..]);
    forall k | 0 <= k < |ids|
      ensures ids[k] in u && u[ids[k]].position == (keys[..i] + keys[i + 1..])[k]
    {
      assert ids[k] in ids;
    }
    InsertedSpread(u, ids, i, id, keys);
  }

  /** The page given the placed key goes to its index, among siblings that keep their order. */
  lemma PlacedOrder(t: Table, u: Table, ids: seq<Id>, index: Option<nat>, id: Id)
    requires Ordered(t, ids) && id !in ids && id in u
    requires forall x | x in ids :: x in u
    requires var placed := PlaceAmong(t, ids, index);
             && u[id].position == placed.key
             && forall x | x in ids :: x in placed.pages && u[x].position == placed.pages[x].position
    ensures Ordered(u, InsertAt(ids, PlaceIndex(index, |ids|), id))
  {
    var i: int := PlaceIndex(index, |ids|);
    OrderedDistinct(t, ids);
    match Between(KeyAt(t, ids, i - 1), KeyAt(t, ids, i)) {
      case Some(key) =>
        assert PlaceAmong(t, ids, index) == Placement(key, t);
        InsertedBetween(t, u, ids, i, id, key);
      case None =>
        var keys := Spread(|ids| + 1);
        assert PlaceAmong(t, ids, index) == Placement(keys[i], Renumber(t, ids, keys[..i] + keys[i + 1..]));
        RenumberedOrder(t, u, ids, i, id, keys);
    }
  }

  lemma OrderedInsert(u: Table, ids: seq<Id>, i: nat, id: Id)
    requires Ordered(u, ids) && id in u && i <= |ids|
    requires forall k | 0 <= k < |ids| :: if k < i then Before(u, ids[k], id) else Before(u, id, ids[k])
    ensures Ordered(u, InsertAt(ids, i, id))
  {
  }

  lemma InsertedBetween(t: Table, u: Table, ids: seq<Id>, i: nat, id: Id, key: Key)
    requires Ordered(t, ids) && id in u && u[id].position == key && i <= |ids|
    requires forall x | x in ids :: x in u && u[x].position == t[x].position
    requires Between(KeyAt(t, ids, i - 1), KeyAt(t, ids, i)) == Some(key)
    ensures Ordered(u, InsertAt(ids, i, id))
  {
    forall k | 0 <= k < |ids| ensures if k < i then Before(u, ids[k], id) else Before(u, id, ids[k]) {
      BetweenFits(t, ids, i, key, k);
      assert ids[k] in ids;
    }
    forall j, k | 0 <= j < k < |ids| ensures Before(u, ids[j], ids[k]) {
      assert ids[j] in ids && ids[k] in ids && Before(t, ids[j], ids[k]);
    }
    OrderedInsert(u, ids, i, id);
  }

  lemma InsertedSpread(u: Table, ids: seq<Id>, i: nat, id: Id, keys: seq<Key>)
    requires i <= |ids| && |keys| == |ids| + 1 && Increasing(keys)
    requires id in u && u[id].position == keys[i]
    requires forall k | 0 <= k < |ids| :: ids[k] in u && u[ids[k]].position == (keys[..i] + keys[i + 1..])[k]
    ensures Ordered(u, InsertAt(ids, i, id))
  {
    var after := InsertAt(ids, i, id);
    forall k | 0 <= k < |after| ensures after[k] in u && u[after[k]].position == keys[k] {
      if k < i {
        assert after[k] == ids[k];
      } else if k > i {
        assert after[k] == ids[k - 1];
      }
    }
  }

  lemma BetweenFits(t: Table, ids: seq<Id>, i: nat, key: Key, k: nat)
    requires Ordered(t, ids) && i <= |ids| && k < |ids|
    requires Between(KeyAt(t, ids, i - 1), KeyAt(t, ids, i)) == Some(key)
    ensures if k < i then Less(t[ids[k]].position, key) else Less(key, t[ids[k]].position)
  {
    if k < i - 1 {
      assert Before(t, ids[k], ids[i - 1]);
      if t[ids[k]].position != t[ids[i - 1]].position {
        LessTransitive(t[ids[k]].position, t[ids[i - 1]].position, key);
      }
    } else if k > i {
      assert Before(t, ids[i], ids[k]);
      if t[ids[k]].position != t[ids[i]].position {
        LessTransitive(key, t[ids[i]].position, t[ids[k]].position);
      }
    }
  }

  /** Taking a page out of a list of siblings leaves the others as they were. */
  lemma ChildrenExcept(t: Table, workspace: Id, parent: Option<Id>, id: Id)
    ensures Children(t, workspace, parent, Some(id)) == Drop(Children(t, workspace, parent, None), id)
  {
    var all := Children(t, workspace, parent, None);
    DropOrdered(t, all, id);
    ChildrenAre(t, workspace, parent, Some(id), Drop(all, id));
  }

  lemma {:induction false} DropOrdered(t: Table, ids: seq<Id>, id: Id)
    requires Ordered(t, ids)
    ensures Ordered(t, Drop(ids, id))
  {
    if ids != [] {
      var rest := Drop(ids[1..], id);
      DropOrdered(t, ids[1..], id);
      forall y | y in rest ensures Before(t, ids[0], y) {
        var k := IndexOf(ids[1..], y);
        assert Before(t, ids[0], ids[k + 1]);
      }
      FirstStays(t, ids[0], rest);
    }
  }

  // ---- The order after a change ----

  /** `id` is at `index` among the children of `parent`, which keep their order. */
  ghost predicate AtIndex(t: Table, u: Table, workspace: Id, parent: Option<Id>, index: Option<nat>, id: Id) {
    var siblings := Children(t, workspace, parent, Some(id));
    Children(u, workspace, parent, None) == InsertAt(siblings, PlaceIndex(index, |siblings|), id)
  }

  /** Every other list of siblings of the instance is as it was, but for `id` missing where it was. */
  ghost predicate OthersKept(t: Table, u: Table, workspace: Id, parent: Option<Id>, id: Id) {
    forall w: Id, p: Option<Id> | (w, p) != (workspace, parent) ::
      Children(u, w, p, None) == Children(t, w, p, Some(id))
  }

  ghost predicate PutAt(t: Table, u: Table, workspace: Id, parent: Option<Id>, index: Option<nat>, id: Id) {
    AtIndex(t, u, workspace, parent, index, id) && OthersKept(t, u, workspace, parent, id)
  }

  /** The change of a table that puts a live page, its own or a new one, at the placed key. */
  ghost predicate PutsPlaced(t: Table, u: Table, workspace: Id, parent: Option<Id>, index: Option<nat>, id: Id) {
    var placed := Place(t, workspace, parent, index, Some(id));
    && u.Keys == t.Keys + {id}
    && u[id].workspace == workspace && u[id].parent == parent && u[id].Live() && u[id].position == placed.key
    && forall x | x in t && x != id :: x in placed.pages && u[x] == placed.pages[x]
  }

  lemma PlacedKids(t: Table, u: Table, workspace: Id, parent: Option<Id>, index: Option<nat>, id: Id)
    requires PutsPlaced(t, u, workspace, parent, index, id)
    ensures Kids(u, workspace, parent, None) == Kids(t, workspace, parent, Some(id)) + {id}
  {
    PlaceRekeys(t, workspace, parent, index, Some(id));
  }

  lemma PlacedAtIndex(t: Table, u: Table, workspace: Id, parent: Option<Id>, index: Option<nat>, id: Id)
    requires PutsPlaced(t, u, workspace, parent, index, id)
    ensures AtIndex(t, u, workspace, parent, index, id)
  {
    PlacedKids(t, u, workspace, parent, index, id);
    var ids := Children(t, workspace, parent, Some(id));
    PlacedOrder(t, u, ids, index, id);
    var after := InsertAt(ids, PlaceIndex(index, |ids|), id);
    InsertAtHolds(ids, PlaceIndex(index, |ids|), id);
    ChildrenAre(u, workspace, parent, None, after);
  }

  lemma PlacedKeepsOthers(t: Table, u: Table, workspace: Id, parent: Option<Id>, index: Option<nat>, id: Id)
    requires PutsPlaced(t, u, workspace, parent, index, id)
    ensures OthersKept(t, u, workspace, parent, id)
  {
    forall w: Id, p: Option<Id> | (w, p) != (workspace, parent)
      ensures Children(u, w, p, None) == Children(t, w, p, Some(id))
    {
      KidsKept(t, u, workspace, parent, index, id, w, p);
      ChildrenFrame(t, u, w, p, Some(id), None);
    }
  }

  lemma KidsKept(t: Table, u: Table, workspace: Id, parent: Option<Id>, index: Option<nat>, id: Id, w: Id,
                 p: Option<Id>)
    requires PutsPlaced(t, u, workspace, parent, index, id) && (w, p) != (workspace, parent)
    ensures Kids(t, w, p, Some(id)) == Kids(u, w, p, None)
    ensures forall x | x in Kids(t, w, p, Some(id)) :: x in u && u[x].position == t[x].position
  {
    PlaceRekeys(t, workspace, parent, index, Some(id));
  }

  lemma PlacedAt(t: Table, u: Table, workspace: Id, parent: Option<Id>, index: Option<nat>, id: Id)
    requires PutsPlaced(t, u, workspace, parent, index, id)
    ensures PutAt(t, u, workspace, parent, index, id)
  {
    PlacedAtIndex(t, u, workspace, parent, index, id);
    PlacedKeepsOthers(t, u, workspace, parent, index, id);
  }

  /** A created page is last among its siblings. */
  lemma CreateIsLast(db: Db, workspace: Id, actor: Id, request: CreateRequest, id: Id, generated: seq<string>)
    requires id !in db.pages
    ensures var (next, outcome) := CreateUnder(db, workspace, actor, request, id, generated);
            outcome.Done? ==> PutAt(db.pages, next.pages, workspace, request.parent, None, id)
  {
    var shortId := ShortIdFor(db.pages, request, generated);
    if shortId.Some? {
      var placed := Place(db.pages, workspace, request.parent, None, None);
      ChildrenFrame(db.pages, db.pages, workspace, request.parent, None, Some(id));
      PlaceRekeys(db.pages, workspace, request.parent, None, None);
      InsertedAt(db, placed, workspace, request.parent, id,
                 NewPage(workspace, actor, request, placed.key, shortId.value));
    }
  }

  lemma InsertedAt(db: Db, placed: Placement, workspace: Id, parent: Option<Id>, id: Id, page: Page)
    requires placed == Place(db.pages, workspace, parent, None, Some(id)) && id !in db.pages
    requires placed.pages.Keys == db.pages.Keys
    requires page.workspace == workspace && page.parent == parent && page.Live() && page.position == placed.key
    ensures PutAt(db.pages, Inserted(db, placed, id, page).pages, workspace, parent, None, id)
  {
    PlacedAt(db.pages, Inserted(db, placed, id, page).pages, workspace, parent, None, id);
  }

  // ---- Moves ----

  /** A page's own place is after the siblings that come before it. */
  lemma RankOrdered(t: Table, id: Id, siblings: seq<Id>)
    requires Ordered(t, siblings) && id in t && id !in siblings
    ensures Ordered(t, InsertAt(siblings, Rank(t, id, siblings), id))
  {
    var rank := Rank(t, id, siblings);
    forall k | rank <= k < |siblings| ensures Before(t, id, siblings[k]) {
      BeforeTotal(t, siblings[rank], id);
      if k > rank { BeforeTransitive(t, id, siblings[rank], siblings[k]); }
    }
  }

  lemma RankPlaces(t: Table, workspace: Id, id: Id)
    requires LiveIn(t, workspace, id)
    ensures var siblings := Children(t, workspace, t[id].parent, Some(id));
            Children(t, workspace, t[id].parent, None) == InsertAt(siblings, Rank(t, id, siblings), id)
  {
    var siblings := Children(t, workspace, t[id].parent, Some(id));
    RankOrdered(t, id, siblings);
    var all := InsertAt(siblings, Rank(t, id, siblings), id);
    InsertAtHolds(siblings, Rank(t, id, siblings), id);
    ChildrenAre(t, workspace, t[id].parent, None, all);
  }

  lemma InsertAtTellsIndex(ids: seq<Id>, i: nat, j: nat, id: Id)
    requires i <= |ids| && j <= |ids| && i != j && id !in ids
    ensures InsertAt(ids, i, id) != InsertAt(ids, j, id)
  {
    assert InsertAt(ids, i, id)[i] == id;
    assert InsertAt(ids, j, id)[i] == ids[if i < j then i else i - 1];
  }

  /** There is no room at the place asked for, and the key the renumbering has for the page is the one it
      has already. */
  ghost predicate NoRoomButOwnKey(t: Table, siblings: seq<Id>, index: nat, id: Id)
    requires id in t && forall x | x in siblings :: x in t
  {
    var i: int := Min(index, |siblings|);
    && Between(KeyAt(t, siblings, i - 1), KeyAt(t, siblings, i)).None?
    && Spread(|siblings| + 1)[i] == t[id].position
  }

  /** The move is dropped though the page is not where it was asked to be. */
  ghost predicate LostMove(t: Table, workspace: Id, id: Id, parent: Option<Id>, index: nat)
    requires LiveIn(t, workspace, id)
  {
    && parent == t[id].parent
    && !AlreadyThere(t, workspace, id, parent, index)
    && NoRoomButOwnKey(t, Children(t, workspace, parent, Some(id)), index, id)
  }

  /** A key between its neighbours' cannot be the page's own, when its place is not there yet. */
  lemma RoomChangesKey(t: Table, siblings: seq<Id>, i: nat, id: Id, key: Key)
    requires Ordered(t, siblings) && id in t && i <= |siblings| && i != Rank(t, id, siblings)
    requires Between(KeyAt(t, siblings, i - 1), KeyAt(t, siblings, i)) == Some(key)
    ensures key != t[id].position
  {
    var rank := Rank(t, id, siblings);
    if rank < i {
      BetweenFits(t, siblings, i, key, rank);
    } else {
      BetweenFits(t, siblings, i, key, i);
      BeforeTotal(t, siblings[i], id);
      LessAsymmetric(key, t[siblings[i]].position);
    }
  }

  lemma MoveCommitKeeps(db: Db, placed: Placement, id: Id, parent: Option<Id>, actor: Id)
    requires id in db.pages && id in placed.pages
    ensures MoveCommit(db, placed, id, parent, actor).None?
       <==> parent == db.pages[id].parent && placed.key == db.pages[id].position
    ensures MoveCommit(db, placed, id, parent, actor).Some? ==>
              MoveCommit(db, placed, id, parent, actor).value.pages
              == placed.pages[id := Written(placed.pages[id], StateOf(db.pages[id]).(parent := parent,
                  position := placed.key))]
  {
    var current := StateOf(db.pages[id]);
    DiffEmpty(current, current.(parent := parent, position := placed.key));
  }

  /** Moving takes a page to its index whenever the commit writes something. */
  lemma CommitPlaces(db: Db, workspace: Id, actor: Id, id: Id, parent: Option<Id>, index: nat)
    requires LiveIn(db.pages, workspace, id)
    ensures var committed := MoveCommit(db, Place(db.pages, workspace, parent, Some(index), Some(id)),
                                          id, parent, actor);
            committed.Some? ==> PutAt(db.pages, committed.value.pages, workspace, parent, Some(index), id)
  {
    var placed := Place(db.pages, workspace, parent, Some(index), Some(id));
    PlaceRekeys(db.pages, workspace, parent, Some(index), Some(id));
    MoveCommitKeeps(db, placed, id, parent, actor);
    if MoveCommit(db, placed, id, parent, actor).Some? {
      PlacedAt(db.pages, MoveCommit(db, placed, id, parent, actor).value.pages, workspace, parent, Some(index), id);
    }
  }

  /** Moving writes nothing exactly when the page is there already or the move is lost. */
  lemma CommitFails(db: Db, workspace: Id, actor: Id, id: Id, parent: Option<Id>, index: nat)
    requires LiveIn(db.pages, workspace, id) && !AlreadyThere(db.pages, workspace, id, parent, index)
    ensures MoveCommit(db, Place(db.pages, workspace, parent, Some(index), Some(id)), id, parent, actor).None?
       <==> LostMove(db.pages, workspace, id, parent, index)
  {
    var t := db.pages;
    MoveCommitKeeps(db, Place(t, workspace, parent, Some(index), Some(id)), id, parent, actor);
    if parent == t[id].parent {
      SameKeyPlaced(t, Children(t, workspace, parent, Some(id)), index, id);
    }
  }

  lemma SameKeyPlaced(t: Table, siblings: seq<Id>, index: nat, id: Id)
    requires Ordered(t, siblings) && id in t && Min(index, |siblings|) != Rank(t, id, siblings)
    ensures PlaceAmong(t, siblings, Some(index)).key == t[id].position <==> NoRoomButOwnKey(t, siblings, index, id)
  {
    var i: int := Min(index, |siblings|);
    match Between(KeyAt(t, siblings, i - 1), KeyAt(t, siblings, i))
    case Some(key) => RoomChangesKey(t, siblings, i, id, key);
    case None =>
  }

  /** A page that stays is at the index asked for exactly when that is its rank. */
  lemma StayedPut(t: Table, workspace: Id, id: Id, index: nat)
    requires LiveIn(t, workspace, id)
    ensures AtIndex(t, t, workspace, t[id].parent, Some(index), id)
       <==> AlreadyThere(t, workspace, id, t[id].parent, index)
  {
    RankPlaces(t, workspace, id);
    var siblings := Children(t, workspace, t[id].parent, Some(id));
    var i, rank := Min(index, |siblings|), Rank(t, id, siblings);
    if i != rank { InsertAtTellsIndex(siblings, i, rank, id); }
  }

  lemma StayKeepsOthers(t: Table, workspace: Id, id: Id)
    requires LiveIn(t, workspace, id)
    ensures OthersKept(t, t, workspace, t[id].parent, id)
  {
    forall w: Id, p: Option<Id> | (w, p) != (workspace, t[id].parent)
      ensures Children(t, w, p, None) == Children(t, w, p, Some(id))
    {
      ChildrenFrame(t, t, w, p, None, Some(id));
    }
  }

  /** A move that nothing forbids puts the page at its index, everything else staying in order, exactly
      when it is not lost; a lost move is answered as if it were done, and changes nothing. */
  lemma MovePlaces(db: Db, workspace: Id, actor: Id, id: Id, parent: Option<Id>, index: nat)
    requires LiveIn(db.pages, workspace, id)
    ensures var (next, outcome) := MoveTo(db, workspace, actor, id, parent, index);
            && (PutAt(db.pages, next.pages, workspace, parent, Some(index), id) <==> !LostMove(db.pages, workspace,
                id, parent, index))
            && (outcome == Done(id) || (outcome == Unchanged(id) && next == db))
            && (outcome.Done? ==> !LostMove(db.pages, workspace, id, parent, index))
  {
    if parent == db.pages[id].parent {
      StayedPut(db.pages, workspace, id, index);
      StayKeepsOthers(db.pages, workspace, id);
    }
    if !AlreadyThere(db.pages, workspace, id, parent, index) {
      CommitPlaces(db, workspace, actor, id, parent, index);
      CommitFails(db, workspace, actor, id, parent, index);
    }
  }

  // ---- Restore to the root ----

  /** A page whose parent is in the trash comes back last at the root of its workspace. */
  lemma RestoreToRootIsLast(db: Db, actor: Id, id: Id)
    requires Inv(db.pages) && id in db.pages && db.pages[id].deletedRoot == Some(id)
    requires !ParentAlive(db.pages, db.pages[id])
    ensures var t, u := db.pages, RestoreRoot(db, actor, id).0.pages;
            Children(u, t[id].workspace, None, None) == Children(t, t[id].workspace, None, None) + [id]
  {
    var t, u := db.pages, RestoreRoot(db, actor, id).0.pages;
    var workspace := t[id].workspace;
    RestoreRootShape(db, actor, id);
    RestoredRoots(t, u, id);
    PlaceRekeys(t, workspace, None, None, None);
    RestoreKeys(db, Place(t, workspace, None, None, None), id, actor);
    RestoredLast(t, u, workspace, id);
  }

  lemma RestoredLast(t: Table, u: Table, workspace: Id, id: Id)
    requires Kids(u, workspace, None, None) == Kids(t, workspace, None, None) + {id}
    requires id in t && !t[id].Live() && u.Keys == t.Keys
    requires var placed := Place(t, workspace, None, None, None);
             && u[id].position == placed.key
             && forall x | x in t && x != id :: x in placed.pages && u[x].position == placed.pages[x].position
    ensures Children(u, workspace, None, None) == Children(t, workspace, None, None) + [id]
  {
    var ids := Children(t, workspace, None, None);
    assert id !in Kids(t, workspace, None, None);
    PlacedOrder(t, u, ids, None, id);
    assert InsertAt(ids, |ids|, id) == ids + [id];
    ChildrenAre(u, workspace, None, None, ids + [id]);
  }

  /** The pages at the root of a workspace once a page came back there. */
  lemma RestoredRoots(t: Table, u: Table, id: Id)
    requires Inv(t) && Restored(t, u, id) && !ParentAlive(t, t[id])
    ensures Kids(u, t[id].workspace, None, None) == Kids(t, t[id].workspace, None, None) + {id}
    ensures !t[id].Live()
  {
    assert Fits(t, id);
    forall x | x in t && x != id
      ensures x in Kids(u, t[id].workspace, None, None) <==> x in Kids(t, t[id].workspace, None, None)
    {
      assert Fits(t, x) && RestoredRow(t, u, id, x);
    }
  }

  lemma RestoreKeys(db: Db, placed: Placement, id: Id, actor: Id)
    requires id in db.pages && id in placed.pages && placed.pages.Keys == db.pages.Keys
    requires RestoreCommit(db, placed, id, None, actor).Some?
    ensures var u := RestoreCommit(db, placed, id, None, actor).value.pages;
            && u.Keys == db.pages.Keys && u[id].position == placed.key
            && forall x | x in placed.pages && x != id :: u[x].position == placed.pages[x].position
  {
  }
}
