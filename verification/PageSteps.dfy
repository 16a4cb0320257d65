/** What each request does to the pages of an instance: create, move, patch, delete and restore, every
    one a transaction that either commits or leaves everything as it was. */
module PageSteps {
  import opened Base
  import opened Keys
  import opened ChangeLog
  import opened Forest

  /** Pages on the longest path of live pages. */
  const MAX_DEPTH: nat := 12

  /** Server-made short ids tried before giving up. */
  const SHORT_ID_ATTEMPTS: nat := 3

  // ---- Fields and their history ----

  datatype Field = Title | Icon | Kind | Parent | Position | DeletedAt

  datatype Value =
    | TextValue(text: string)
    | IconValue(icon: Option<PageIcon>)
    | KindValue(kind: PageType)
    | ParentValue(parent: Option<Id>)
    | KeyValue(key: Key)
    | TimeValue(time: Option<Time>)

  type PageRow = Row<Field, Value>

  const FIELDS: seq<Field> := [Title, Icon, Kind, Parent, Position, DeletedAt]

  /** The columns an update may write. */
  datatype PageState = PageState(
    parent: Option<Id>,
    position: Key,
    kind: PageType,
    title: string,
    icon: Option<PageIcon>,
    deletedAt: Option<Time>,
    deletedRoot: Option<Id>)
  {
    function Get(field: Field): Value {
      match field
      case Title => TextValue(title)
      case Icon => IconValue(icon)
      case Kind => KindValue(kind)
      case Parent => ParentValue(parent)
      case Position => KeyValue(position)
      case DeletedAt => TimeValue(deletedAt)
    }
  }

  function StateOf(page: Page): PageState {
    PageState(page.parent, page.position, page.kind, page.title, page.icon, page.deletedAt, page.deletedRoot)
  }

  /** What an update logs. `deletedRoot` is written but never logged. */
  function PageDiff(current: PageState, next: PageState): seq<Change<Field, Value>> {
    Diff(FIELDS, f => current.Get(f), f => next.Get(f))
  }

  datatype Db = Db(pages: Table, log: seq<PageRow>)

  /** The row with new fields and the next version. */
  function Written(page: Page, next: PageState): Page {
    page.(parent := next.parent, position := next.position, kind := next.kind, title := next.title,
          icon := next.icon, deletedAt := next.deletedAt, deletedRoot := next.deletedRoot,
          version := page.version + 1)
  }

  /** `None` when `next` changes nothing. */
  function Update(db: Db, id: Id, current: Page, next: PageState, actor: Id): Option<Db>
    requires id in db.pages
  {
    var diff := PageDiff(StateOf(current), next);
    if diff == [] && next.deletedRoot == current.deletedRoot then None
    else
      var updated := Written(db.pages[id], next);
      Some(Db(db.pages[id := updated], db.log + Rows(id, updated.version, actor, diff)))
  }

  // ---- Requests and answers ----

  datatype Error =
    | NotFound
    | ParentNotFound
    | PageCycle
    | TooDeep
    | EmptyRequest
    | FutureVersion
    | EditConflict(found: map<Field, PageRow>)
    | PageNotEmpty
    | TrashedWithParent
    | IdTaken
    | ShortIdTaken
    | Internal

  datatype Outcome =
    | Done(page: Id)        // committed
    | Unchanged(page: Id)   // answered with the page as it is, nothing written
    | Refused(error: Error)

  datatype CreateRequest = CreateRequest(
    id: Option<Id>,
    shortId: Option<string>,
    kind: PageType,
    parent: Option<Id>,
    title: string,
    icon: Option<PageIcon>)

  /** The fields an edit sets. */
  datatype ChangeSet = ChangeSet(title: Option<string>, icon: Option<Option<PageIcon>>, kind: Option<PageType>) {
    predicate IsEmpty() {
      title.None? && icon.None? && kind.None?
    }
  }

  function SentFields(change: ChangeSet): seq<Field> {
    (if change.title.Some? then [Title] else [])
    + (if change.icon.Some? then [Icon] else [])
    + (if change.kind.Some? then [Kind] else [])
  }

  /** A request with what the server adds to it: the workspace and user it acts for, the ids it makes,
      the clock, and whether anyone ever wrote to the page's body. */
  datatype Step =
    | Create(workspace: Id, actor: Id, request: CreateRequest, newId: Id, generated: seq<string>)
    | Move(workspace: Id, actor: Id, page: Id, parent: Option<Id>, index: nat)
    | Patch(workspace: Id, actor: Id, page: Id, base: int, change: ChangeSet, written: bool)
    | Delete(workspace: Id, actor: Id, page: Id, at: Time)
    | Restore(workspace: Id, actor: Id, page: Id)

  // ---- Shared checks ----

  predicate LiveIn(t: Table, workspace: Id, id: Id) {
    id in t && t[id].workspace == workspace && t[id].Live()
  }

  /** The depth of the parent a page goes under, or why it cannot. */
  ghost function CheckParent(t: Table, workspace: Id, parent: Id, moved: Option<Id>): Result<nat>
    requires Rooted(t)
  {
    if !LiveIn(t, workspace, parent) then Failure(ParentNotFound)
    else if moved.Some? && Under(t, moved.value, parent) then Failure(PageCycle)
    else Success(Depth(t, parent))
  }

  datatype Result<+T> = Success(value: T) | Failure(error: Error)

  ghost function Highest(numbers: set<nat>): (highest: nat)
    requires numbers != {}
    ensures highest in numbers && forall n | n in numbers :: n <= highest
  {
    var n :| n in numbers;
    if numbers == {n} then n
    else
      assert numbers == {n} + (numbers - {n});
      Max(n, Highest(numbers - {n}))
  }

  /** How many levels the live subtree of a live page takes: 1 for a page without children. */
  ghost function Height(t: Table, id: Id): (height: nat)
    requires Inv(t) && id in t && t[id].Live()
    ensures forall x | x in Taken(t, id) :: Level(t, id, x) <= height
    ensures exists x :: x in Taken(t, id) && Level(t, id, x) == height
  {
    assert id in Taken(t, id) by { assert PathOf(t, id)[0] == id; }
    var levels := set x | x in Taken(t, id) :: Level(t, id, x);
    assert Level(t, id, id) in levels;
    assert forall x | x in Taken(t, id) :: Level(t, id, x) in levels;
    Highest(levels)
  }

  /** The level of `x` in the subtree of `root`; `root` itself is at level 1. */
  ghost function Level(t: Table, root: Id, x: Id): (level: nat)
    requires Rooted(t) && Under(t, root, x)
    ensures level >= 1
  {
    1 + IndexOf(PathOf(t, x), root)
  }

  // ---- Placement ----

  /** New keys for siblings, in their order. */
  ghost function Renumber(t: Table, ids: seq<Id>, keys: seq<Key>): Table
    requires |ids| == |keys|
  {
    map x | x in t :: if x in ids then t[x].(position := keys[IndexOf(ids, x)]) else t[x]
  }

  datatype Placement = Placement(key: Key, pages: Table)

  function PlaceIndex(index: Option<nat>, count: nat): nat {
    Min(index.GetOr(count), count)
  }

  function KeyAt(t: Table, ids: seq<Id>, i: int): Option<Key>
    requires forall x | x in ids :: x in t
  {
    if 0 <= i < |ids| then Some(t[ids[i]].position) else None
  }

  /** The key at `index` of the list; without one, all of the list is renumbered around it. */
  ghost function PlaceAmong(t: Table, siblings: seq<Id>, index: Option<nat>): Placement
    requires forall x | x in siblings :: x in t
  {
    var i := PlaceIndex(index, |siblings|);
    match Between(KeyAt(t, siblings, i - 1), KeyAt(t, siblings, i))
    case Some(key) => Placement(key, t)
    case None =>
      var keys := Spread(|siblings| + 1);
      Placement(keys[i], Renumber(t, siblings, keys[..i] + keys[i + 1..]))
  }

  ghost function Place(t: Table, workspace: Id, parent: Option<Id>, index: Option<nat>, except: Option<Id>): Placement {
    PlaceAmong(t, Children(t, workspace, parent, except), index)
  }

  // ---- Create ----

  predicate ShortIdUsed(t: Table, shortId: string) {
    exists id | id in t :: t[id].shortId == shortId
  }

  /** The first of `candidates` nobody has. */
  function FirstFree(t: Table, candidates: seq<string>): Option<string> {
    if candidates == [] then None
    else if ShortIdUsed(t, candidates[0]) then FirstFree(t, candidates[1..])
    else Some(candidates[0])
  }

  /** A create met a page with its id: a repeat if workspace and creator match. */
  function SameRequest(t: Table, id: Id, workspace: Id, actor: Id): Outcome
    requires id in t
  {
    if t[id].workspace == workspace && t[id].createdBy == actor then Unchanged(id) else Refused(IdTaken)
  }

  function NewPage(workspace: Id, actor: Id, request: CreateRequest, position: Key, shortId: string): Page {
    Page(workspace, request.parent, position, request.kind, request.title, request.icon, shortId, actor, 1, None, None)
  }

  /** Why a page cannot be created under its parent. */
  ghost function CreateRefusal(t: Table, workspace: Id, parent: Option<Id>): Option<Error>
    requires Rooted(t)
  {
    if parent.None? then None
    else
      match CheckParent(t, workspace, parent.value, None)
      case Failure(error) => Some(error)
      case Success(depth) => if depth + 1 > MAX_DEPTH then Some(TooDeep) else None
  }

  function Inserted(db: Db, placed: Placement, id: Id, page: Page): Db {
    Db(placed.pages[id := page], db.log)
  }

  /** The short id the page gets: the one asked for, or the first free one of a few made here. */
  function ShortIdFor(t: Table, request: CreateRequest, generated: seq<string>): Option<string> {
    if request.shortId.Some? then
      if ShortIdUsed(t, request.shortId.value) then None else request.shortId
    else FirstFree(t, generated[..Min(SHORT_ID_ATTEMPTS, |generated|)])
  }

  /** Inserts a page, last under a parent that may take it. */
  ghost function CreateUnder(db: Db, workspace: Id, actor: Id, request: CreateRequest, id: Id,
                             generated: seq<string>): (Db, Outcome) {
    if id in db.pages then (db, SameRequest(db.pages, id, workspace, actor))
    else
      var placed := Place(db.pages, workspace, request.parent, None, None);
      match ShortIdFor(db.pages, request, generated)
      case None => (db, Refused(if request.shortId.Some? then ShortIdTaken else Internal))
      case Some(shortId) => (Inserted(db, placed, id, NewPage(workspace, actor, request, placed.key, shortId)),
          Done(id))
  }

  ghost function CreateStep(db: Db, workspace: Id, actor: Id, request: CreateRequest, newId: Id,
                            generated: seq<string>): (Db, Outcome)
    requires Rooted(db.pages)
  {
    if request.id.Some? && request.id.value in db.pages then
      (db, SameRequest(db.pages, request.id.value, workspace, actor))
    else
      match CreateRefusal(db.pages, workspace, request.parent)
      case Some(error) => (db, Refused(error))
      case None => CreateUnder(db, workspace, actor, request, request.id.GetOr(newId), generated)
  }

  // ---- Move ----

  /** How many of `siblings`, from the first on, come before `id`. */
  function Rank(t: Table, id: Id, siblings: seq<Id>): (rank: nat)
    requires id in t && forall x | x in siblings :: x in t
    ensures rank <= |siblings|
    ensures forall i | 0 <= i < rank :: Before(t, siblings[i], id)
    ensures rank < |siblings| ==> !Before(t, siblings[rank], id)
  {
    if siblings == [] || !Before(t, siblings[0], id) then 0 else 1 + Rank(t, id, siblings[1..])
  }

  /** Why a live page cannot go under `parent`. */
  ghost function MoveRefusal(t: Table, workspace: Id, id: Id, parent: Option<Id>): Option<Error>
    requires Inv(t) && LiveIn(t, workspace, id)
  {
    var under := if parent.Some? then CheckParent(t, workspace, parent.value, Some(id)) else Success(0);
    match under
    case Failure(error) => Some(error)
    case Success(depth) => if depth + Height(t, id) > MAX_DEPTH then Some(TooDeep) else None
  }

  /** The page is where the request puts it. */
  ghost predicate AlreadyThere(t: Table, workspace: Id, id: Id, parent: Option<Id>, index: nat)
    requires LiveIn(t, workspace, id)
  {
    && parent == t[id].parent
    && var siblings := Children(t, workspace, parent, Some(id));
       Min(index, |siblings|) == Rank(t, id, siblings)
  }

  /** Writes the moved page over the renumbered siblings. */
  function MoveCommit(db: Db, placed: Placement, id: Id, parent: Option<Id>, actor: Id): Option<Db>
    requires id in db.pages && id in placed.pages
  {
    var next := StateOf(db.pages[id]).(parent := parent, position := placed.key);
    Update(Db(placed.pages, db.log), id, db.pages[id], next, actor)
  }

  /** Puts a page where nothing forbids it. */
  ghost function MoveTo(db: Db, workspace: Id, actor: Id, id: Id, parent: Option<Id>, index: nat): (Db, Outcome)
    requires LiveIn(db.pages, workspace, id)
  {
    if AlreadyThere(db.pages, workspace, id, parent, index) then (db, Unchanged(id))
    else
      var placed := Place(db.pages, workspace, parent, Some(index), Some(id));
      match MoveCommit(db, placed, id, parent, actor)
      case None => (db, Unchanged(id)) // the transaction is dropped, with the new keys of the siblings
      case Some(moved) => (moved, Done(id))
  }

  ghost function MoveStep(db: Db, workspace: Id, actor: Id, id: Id, parent: Option<Id>, index: nat): (Db, Outcome)
    requires Inv(db.pages)
  {
    if !LiveIn(db.pages, workspace, id) then (db, Refused(NotFound))
    else
      match MoveRefusal(db.pages, workspace, id, parent)
      case Some(error) => (db, Refused(error))
      case None => MoveTo(db, workspace, actor, id, parent, index)
  }

  // ---- Patch ----

  ghost predicate HasContent(t: Table, id: Id, written: bool) {
    written || exists child | child in t :: t[child].parent == Some(id) && t[child].Live()
  }

  function PatchedState(page: Page, change: ChangeSet): PageState {
    StateOf(page).(title := change.title.GetOr(page.title),
                   icon := change.icon.GetOr(page.icon),
                   kind := change.kind.GetOr(page.kind))
  }

  ghost function PatchStep(db: Db, workspace: Id, actor: Id, id: Id, base: int, change: ChangeSet,
                           written: bool): (Db, Outcome) {
    var t := db.pages;
    if change.IsEmpty() then (db, Refused(EmptyRequest))
    else if !LiveIn(t, workspace, id) then (db, Refused(NotFound))
    else if base > t[id].version then (db, Refused(FutureVersion))
    else
      var found := Conflicts(db.log, id, base, SentFields(change));
      if found != map[] then (db, Refused(EditConflict(found)))
      else if change.kind.Some? && change.kind.value != t[id].kind && HasContent(t, id, written) then
        (db, Refused(PageNotEmpty))
      else
        match Update(db, id, t[id], PatchedState(t[id], change), actor)
        case None => (db, Unchanged(id))
        case Some(updated) => (updated, Done(id))
  }

  // ---- Delete and restore ----

  /** The live pages under `root` go to the trash with it. */
  ghost function TrashDescendants(t: Table, root: Id, at: Time): Table
    requires Rooted(t)
  {
    map x | x in t ::
      if x in Taken(t, root) && x != root
      then t[x].(deletedAt := Some(at), deletedRoot := Some(root), version := t[x].version + 1)
      else t[x]
  }

  ghost function DeleteStep(db: Db, workspace: Id, actor: Id, id: Id, at: Time): (Db, Outcome)
    requires Rooted(db.pages)
  {
    var t := db.pages;
    if id !in t || t[id].workspace != workspace then (db, Refused(NotFound))
    else if !t[id].Live() then (db, Unchanged(id))
    else
      var next := StateOf(t[id]).(deletedAt := Some(at), deletedRoot := Some(id));
      match Update(Db(TrashDescendants(t, id, at), db.log), id, t[id], next, actor)
      case None => (db, Unchanged(id))
      case Some(deleted) => (deleted, Done(id))
  }

  /** The pages trashed with `root` come back. */
  ghost function RestoreDescendants(t: Table, root: Id): Table {
    map x | x in t ::
      if t[x].deletedRoot == Some(root) && x != root
      then t[x].(deletedAt := None, deletedRoot := None, version := t[x].version + 1)
      else t[x]
  }

  predicate ParentAlive(t: Table, page: Page) {
    page.parent.None? || (page.parent.value in t && t[page.parent.value].Live())
  }

  /** Writes the restored page over its restored descendants. */
  ghost function RestoreCommit(db: Db, placed: Placement, id: Id, parent: Option<Id>, actor: Id): Option<Db>
    requires id in db.pages && id in placed.pages
  {
    var next := StateOf(db.pages[id]).(
      parent := parent, position := placed.key, deletedAt := None, deletedRoot := None);
    Update(Db(RestoreDescendants(placed.pages, id), db.log), id, db.pages[id], next, actor)
  }

  /** Brings back the root of a trash: at its old place, or last at the root of the workspace when its
      parent is gone or in the trash. */
  ghost function RestoreRoot(db: Db, actor: Id, id: Id): (Db, Outcome)
    requires id in db.pages
  {
    var page := db.pages[id];
    var alive := ParentAlive(db.pages, page);
    var placed :=
      if alive then Placement(page.position, db.pages) else Place(db.pages, page.workspace, None, None, None);
    match RestoreCommit(db, placed, id, if alive then page.parent else None, actor)
    case None => (db, Refused(Internal))
    case Some(restored) => (restored, Done(id))
  }

  ghost function RestoreStep(db: Db, workspace: Id, actor: Id, id: Id): (Db, Outcome) {
    var t := db.pages;
    if id !in t || t[id].workspace != workspace then (db, Refused(NotFound))
    else if t[id].Live() then (db, Unchanged(id))
    else if t[id].deletedRoot != Some(id) then (db, Refused(TrashedWithParent))
    else RestoreRoot(db, actor, id)
  }

  // ---- Any request ----

  ghost function Apply(db: Db, step: Step): (Db, Outcome)
    requires Inv(db.pages)
  {
    match step
    case Create(workspace, actor, request, newId, generated) =>
      CreateStep(db, workspace, actor, request, newId, generated)
    case Move(workspace, actor, page, parent, index) => MoveStep(db, workspace, actor, page, parent, index)
    case Patch(workspace, actor, page, base, change, written) =>
      PatchStep(db, workspace, actor, page, base, change, written)
    case Delete(workspace, actor, page, at) => DeleteStep(db, workspace, actor, page, at)
    case Restore(workspace, actor, page) => RestoreStep(db, workspace, actor, page)
  }
}
