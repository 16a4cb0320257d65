/** Workspaces and the addresses they have had: creating, editing, deleting and restoring one, while time
    passes. */
module WorkspaceSteps {
  import opened Base
  import opened ChangeLog
  import Slugs
  import D = Decimal

  const DAY: Time := 24 * 60 * 60

  /** How long an old slug redirects. */
  const ALIAS_LIFE: Time := 90 * DAY

  /** 30 days. */
  const RESTORE_WINDOW: Time := 30 * DAY

  datatype Field = Name | Slug | TaskPrefix | IconAssetId | DeletedAt

  datatype Value = TextValue(text: string) | AssetValue(asset: Option<Id>) | TimeValue(time: Option<Time>)

  type WorkspaceRow = Row<Field, Value>

  const FIELDS: seq<Field> := [Name, Slug, TaskPrefix, IconAssetId, DeletedAt]

  /** The columns an update may write. */
  datatype WorkspaceState = WorkspaceState(
    name: string,
    slug: string,
    taskPrefix: string,
    iconAssetId: Option<Id>,
    deletedAt: Option<Time>)
  {
    function Get(field: Field): Value {
      match field
      case Name => TextValue(name)
      case Slug => TextValue(slug)
      case TaskPrefix => TextValue(taskPrefix)
      case IconAssetId => AssetValue(iconAssetId)
      case DeletedAt => TimeValue(deletedAt)
    }
  }

  datatype Workspace = Workspace(state: WorkspaceState, owner: Id, personalOf: Option<Id>, version: nat)

  datatype Alias = Alias(workspace: Id, expiresAt: Time)

  datatype Db = Db(
    workspaces: map<Id, Workspace>,
    aliases: map<string, Alias>,
    log: seq<WorkspaceRow>,
    now: Time)

  function Empty(now: Time): Db {
    Db(map[], map[], [], now)
  }

  // ---- Slug queries ----

  predicate IsCurrent(db: Db, slug: string) {
    exists id | id in db.workspaces :: db.workspaces[id].state.slug == slug
  }

  predicate LiveAlias(db: Db, slug: string) {
    slug in db.aliases && db.aliases[slug].expiresAt > db.now
  }

  predicate IsSlugTaken(db: Db, slug: string) {
    IsCurrent(db, slug) || LiveAlias(db, slug)
  }

  /** `slug` is the workspace's own address, now or by a live alias, and the user is a member there. */
  predicate IsOwnSlug(db: Db, member: bool, id: Id, slug: string) {
    member && id in db.workspaces
    && (db.workspaces[id].state.slug == slug || (LiveAlias(db, slug) && db.aliases[slug].workspace == id))
  }

  /** The workspaces an address leads to. */
  ghost function Resolve(db: Db, slug: string): set<Id> {
    set id | id in db.workspaces
             && (db.workspaces[id].state.slug == slug || (LiveAlias(db, slug) && db.aliases[slug].workspace == id))
  }

  /** `base` or `base-` and digits. */
  predicate Similar(base: string, slug: string) {
    slug == base
    || (|slug| > |base| + 1 && slug[..|base| + 1] == base + "-" && D.AllDigits(slug[|base| + 1..]))
  }

  /** The slugs of that family in use now, or in an alias, even an expired one. */
  function SimilarSlugs(db: Db, base: string): set<string> {
    (set id | id in db.workspaces && Similar(base, db.workspaces[id].state.slug) :: db.workspaces[id].state.slug)
    + (set slug | slug in db.aliases && Similar(base, slug))
  }

  // ---- Requests ----

  datatype Error =
    | NotFound
    | AccessDenied
    | InvalidSlug(code: Slugs.SlugError)
    | SlugTaken
    | IdTaken
    | EmptyRequest
    | FutureVersion
    | EditConflict(found: map<Field, WorkspaceRow>)

  datatype Outcome =
    | Created(workspace: Id)
    | Existed(workspace: Id)
    | Done(workspace: Id)
    | Unchanged(workspace: Id)
    | Refused(error: Error)

  datatype ChangeSet = ChangeSet(
    name: Option<string>,
    slug: Option<string>,
    taskPrefix: Option<string>,
    iconAssetId: Option<Option<Id>>)
  {
    predicate IsEmpty() {
      name.None? && slug.None? && taskPrefix.None? && iconAssetId.None?
    }
  }

  function SentFields(change: ChangeSet): seq<Field> {
    (if change.name.Some? then [Name] else [])
    + (if change.slug.Some? then [Slug] else [])
    + (if change.taskPrefix.Some? then [TaskPrefix] else [])
    + (if change.iconAssetId.Some? then [IconAssetId] else [])
  }

  /** A request, or time passing. `ascii` is the name transliterated; `member` is whether the actor is an
      active member of the workspace. */
  datatype Step =
    | Tick(elapsed: nat)
    | Create(id: Id, actor: Id, name: string, slug: Option<string>, ascii: string, taskPrefix: string)
    | EnsurePersonal(actor: Id, newId: Id, name: string, ascii: string, taskPrefix: string)
    | Edit(id: Id, actor: Id, member: bool, base: int, change: ChangeSet)
    | SoftDelete(id: Id, actor: Id, member: bool)
    | Restore(id: Id, actor: Id, member: bool)

  // ---- Create ----

  ghost function GeneratedSlug(db: Db, ascii: string): string {
    var base := Slugs.FromName(ascii);
    Slugs.Available(base, SimilarSlugs(db, base))
  }

  /** The insert: nothing when the id exists, refused by the `UNIQUE` of the slug. */
  function Insert(db: Db, id: Id, workspace: Workspace): (Db, Outcome) {
    if id in db.workspaces then (db, Existed(id))
    else if IsCurrent(db, workspace.state.slug) then (db, Refused(SlugTaken))
    else (db.(workspaces := db.workspaces[id := workspace]), Created(id))
  }

  /** The same request again is answered with the workspace, for its owner and while it is not deleted. */
  function AnswerExisting(db: Db, outcome: Outcome, actor: Id): Outcome
    requires outcome.Existed? ==> outcome.workspace in db.workspaces
  {
    if outcome.Existed?
       && !(db.workspaces[outcome.workspace].owner == actor && db.workspaces[outcome.workspace].state.deletedAt.None?)
    then Refused(IdTaken)
    else outcome
  }

  function NewWorkspace(name: string, slug: string, taskPrefix: string, owner: Id, personalOf: Option<Id>): Workspace {
    Workspace(WorkspaceState(name, slug, taskPrefix, None, None), owner, personalOf, 1)
  }

  ghost function CreateStep(db: Db, id: Id, actor: Id, name: string, slug: Option<string>, ascii: string,
                            taskPrefix: string): (Db, Outcome) {
    if slug.Some? && Slugs.Validate(slug.value).Some? then (db, Refused(InvalidSlug(Slugs.Validate(slug.value).value)))
    else if slug.Some? && IsSlugTaken(db, slug.value) then (db, Refused(SlugTaken))
    else
      var chosen := if slug.Some? then slug.value else GeneratedSlug(db, ascii);
      var (next, outcome) := Insert(db, id, NewWorkspace(name, chosen, taskPrefix, actor, None));
      (next, AnswerExisting(next, outcome, actor))
  }

  predicate IsPersonal(db: Db, id: Id, user: Id) {
    id in db.workspaces && db.workspaces[id].personalOf == Some(user)
  }

  ghost function PersonalStep(db: Db, actor: Id, newId: Id, name: string, ascii: string, taskPrefix: string): (Db,
                              Outcome) {
    if exists id :: IsPersonal(db, id, actor) then
      var id :| IsPersonal(db, id, actor);
      (db, Existed(id))
    else
      Insert(db, newId, NewWorkspace(name, GeneratedSlug(db, ascii), taskPrefix, actor, Some(actor)))
  }

  // ---- Update ----

  function StateDiff(current: WorkspaceState, next: WorkspaceState): seq<Change<Field, Value>> {
    Diff(FIELDS, f => current.Get(f), f => next.Get(f))
  }

  /** The aliases once `id` goes from one slug to another. */
  function MoveSlug(aliases: map<string, Alias>, id: Id, before: string, after: string, now: Time): map<string, Alias> {
    (aliases - {after})[before := Alias(id, now + ALIAS_LIFE)]
  }

  /** Someone else's workspace has the slug: the `UNIQUE` of the table. */
  predicate CurrentElsewhere(db: Db, id: Id, slug: string) {
    exists other | other in db.workspaces :: other != id && db.workspaces[other].state.slug == slug
  }

  function Update(db: Db, id: Id, next: WorkspaceState, actor: Id, member: bool): (Db, Outcome)
    requires id in db.workspaces
  {
    var current := db.workspaces[id];
    var diff := StateDiff(current.state, next);
    var slugChanged := next.slug != current.state.slug;
    if diff == [] then (db, Unchanged(id))
    else if slugChanged && IsSlugTaken(db, next.slug) && !IsOwnSlug(db, member, id, next.slug) then (db,
        Refused(SlugTaken))
    else if CurrentElsewhere(db, id, next.slug) then (db, Refused(SlugTaken))
    else
      var updated := current.(state := next, version := current.version + 1);
      var aliases := if slugChanged then MoveSlug(db.aliases, id, current.state.slug, next.slug, db.now)
          else db.aliases;
      (Db(db.workspaces[id := updated], aliases, db.log + Rows(id, updated.version, actor, diff), db.now), Done(id))
  }

  function EditedState(state: WorkspaceState, change: ChangeSet): WorkspaceState {
    state.(name := change.name.GetOr(state.name),
           slug := change.slug.GetOr(state.slug),
           taskPrefix := change.taskPrefix.GetOr(state.taskPrefix),
           iconAssetId := change.iconAssetId.GetOr(state.iconAssetId))
  }

  function EditStep(db: Db, id: Id, actor: Id, member: bool, base: int, change: ChangeSet): (Db, Outcome) {
    if !member || id !in db.workspaces || db.workspaces[id].state.deletedAt.Some? then (db, Refused(NotFound))
    else if change.IsEmpty() then (db, Refused(EmptyRequest))
    else if change.slug.Some? && Slugs.Validate(change.slug.value).Some? then
      (db, Refused(InvalidSlug(Slugs.Validate(change.slug.value).value)))
    else if base > db.workspaces[id].version then (db, Refused(FutureVersion))
    else
      var found := Conflicts(db.log, id, base, SentFields(change));
      if found != map[] then (db, Refused(EditConflict(found)))
      else Update(db, id, EditedState(db.workspaces[id].state, change), actor, member)
  }

  predicate IsRestorable(deletedAt: Time, now: Time) {
    deletedAt > now - RESTORE_WINDOW
  }

  /** Why a workspace cannot be deleted or restored: only its owner may, while it can be restored, and not
      a personal one. */
  function OwnerRefusal(db: Db, id: Id, actor: Id, member: bool): Option<Error> {
    if !member || id !in db.workspaces then Some(NotFound)
    else
      var workspace := db.workspaces[id];
      var deletedAt := workspace.state.deletedAt;
      if deletedAt.Some? && !(workspace.owner == actor && IsRestorable(deletedAt.value, db.now)) then Some(NotFound)
      else if workspace.owner != actor || workspace.personalOf.Some? then Some(AccessDenied)
      else None
  }

  function DeleteStep(db: Db, id: Id, actor: Id, member: bool): (Db, Outcome) {
    match OwnerRefusal(db, id, actor, member)
    case Some(error) => (db, Refused(error))
    case None =>
      var state := db.workspaces[id].state;
      if state.deletedAt.Some? then (db, Unchanged(id))
      else Update(db, id, state.(deletedAt := Some(db.now)), actor, member)
  }

  function RestoreStep(db: Db, id: Id, actor: Id, member: bool): (Db, Outcome) {
    match OwnerRefusal(db, id, actor, member)
    case Some(error) => (db, Refused(error))
    case None => Update(db, id, db.workspaces[id].state.(deletedAt := None), actor, member)
  }

  // ---- Any request ----

  ghost function Apply(db: Db, step: Step): (Db, Outcome) {
    match step
    case Tick(elapsed) => (db.(now := db.now + elapsed), Unchanged(0))
    case Create(id, actor, name, slug, ascii, taskPrefix) => CreateStep(db, id, actor, name, slug, ascii, taskPrefix)
    case EnsurePersonal(actor, newId, name, ascii, taskPrefix) =>
      PersonalStep(db, actor, newId, name, ascii, taskPrefix)
    case Edit(id, actor, member, base, change) => EditStep(db, id, actor, member, base, change)
    case SoftDelete(id, actor, member) => DeleteStep(db, id, actor, member)
    case Restore(id, actor, member) => RestoreStep(db, id, actor, member)
  }

  ghost function Next(db: Db, step: Step): Db {
    Apply(db, step).0
  }

  /** The requests that edit, delete or restore a workspace end in one update of its row, or change nothing. */
  lemma EndsInUpdate(db: Db, step: Step) returns (id: Id, next: Option<WorkspaceState>, actor: Id, member: bool)
    requires step.Edit? || step.SoftDelete? || step.Restore?
    ensures next.None? ==> Next(db, step) == db
    ensures next.Some? ==>
              && id in db.workspaces
              && (Next(db, step) == db || Next(db, step) == Update(db, id, next.value, actor, member).0)
  {
    next := None;
    match step
    case Edit(edited, who, isMember, _, change) =>
      id, actor, member := edited, who, isMember;
      if id in db.workspaces { next := Some(EditedState(db.workspaces[id].state, change)); }
    case SoftDelete(deleted, who, isMember) =>
      id, actor, member := deleted, who, isMember;
      if id in db.workspaces { next := Some(db.workspaces[id].state.(deletedAt := Some(db.now))); }
    case Restore(restored, who, isMember) =>
      id, actor, member := restored, who, isMember;
      if id in db.workspaces { next := Some(db.workspaces[id].state.(deletedAt := None)); }
  }

  ghost function Run(db: Db, steps: seq<Step>): Db
    decreases |steps|
  {
    if steps == [] then db else Run(Next(db, steps[0]), steps[1..])
  }
}
