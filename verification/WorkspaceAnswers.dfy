/** How exactly each request on a workspace is answered, and what a created workspace holds. */
module WorkspaceAnswers {
  import opened Base
  import opened ChangeLog
  import Slugs
  import opened WorkspaceSteps
  import SlugSafety
  import WorkspaceHistory
  import H = History

  // ---- Create ----

  /** A new workspace of its owner, with these fields and nothing else. */
  ghost predicate IsNew(w: Workspace, name: string, slug: string, taskPrefix: string, owner: Id,
                        personalOf: Option<Id>) {
    && w.state.name == name && w.state.slug == slug && w.state.taskPrefix == taskPrefix
    && w.state.iconAssetId.None? && w.state.deletedAt.None?
    && w.owner == owner && w.personalOf == personalOf && w.version == 1
  }

  /** One more workspace; nothing else differs. */
  ghost predicate Added(b: Db, c: Db, id: Id) {
    id !in b.workspaces && id in c.workspaces && c == b.(workspaces := b.workspaces[id := c.workspaces[id]])
  }

  /** The slug is the one sent, or the first free one of the family of the name's. */
  ghost predicate IsSlugOf(db: Db, slug: Option<string>, ascii: string, chosen: string) {
    match slug
    case Some(sent) => chosen == sent
    case None =>
      var base := Slugs.FromName(ascii);
      Slugs.IsAvailable(base, SimilarSlugs(db, base), chosen)
  }

  /** When exactly a workspace is created, and how a create is refused or answered otherwise. */
  lemma CreateAnswer(db: Db, id: Id, actor: Id, name: string, slug: Option<string>, ascii: string, taskPrefix: string)
    requires SlugSafety.Inv(db)
    ensures var outcome := CreateStep(db, id, actor, name, slug, ascii, taskPrefix).1;
            var invalid := if slug.Some? then Slugs.Validate(slug.value) else None;
            var taken := slug.Some? && Resolve(db, slug.value) != {};
            var open := invalid.None? && !taken;
            var mine := id in db.workspaces && db.workspaces[id].owner == actor
                        && db.workspaces[id].state.deletedAt.None?;
            && (invalid.Some? <==> outcome.Refused? && outcome.error.InvalidSlug?)
            && (invalid.Some? ==> outcome == Refused(InvalidSlug(invalid.value)))
            && (outcome == Refused(SlugTaken) <==> invalid.None? && taken)
            && (outcome == Created(id) <==> open && id !in db.workspaces)
            && (outcome == Existed(id) <==> open && mine)
            && (outcome == Refused(IdTaken) <==> open && id in db.workspaces && !mine)
  {
    SlugSafety.GeneratedIsFree(db, ascii);
    if slug.Some? { TakenResolves(db, slug.value); }
  }

  lemma TakenResolves(db: Db, slug: string)
    requires SlugSafety.Inv(db)
    ensures IsSlugTaken(db, slug) <==> Resolve(db, slug) != {}
  {
    if IsCurrent(db, slug) {
      var id :| id in db.workspaces && db.workspaces[id].state.slug == slug;
      assert id in Resolve(db, slug);
    } else if LiveAlias(db, slug) {
      assert db.aliases[slug].workspace in Resolve(db, slug);
    }
    if Resolve(db, slug) != {} { var id :| id in Resolve(db, slug); }
  }

  /** What a created workspace holds: what was sent, under the slug sent or made; nothing else changes. */
  lemma CreatedHolds(db: Db, id: Id, actor: Id, name: string, slug: Option<string>, ascii: string, taskPrefix: string)
    ensures var (next, outcome) := CreateStep(db, id, actor, name, slug, ascii, taskPrefix);
            if outcome.Created?
            then
              && outcome == Created(id) && Added(db, next, id)
              && var w := next.workspaces[id];
                 IsNew(w, name, w.state.slug, taskPrefix, actor, None) && IsSlugOf(db, slug, ascii, w.state.slug)
            else next == db
  {
  }

  /** A personal workspace that is made: likewise, and it is its owner's. */
  lemma PersonalHolds(db: Db, actor: Id, newId: Id, name: string, ascii: string, taskPrefix: string)
    ensures var (next, outcome) := PersonalStep(db, actor, newId, name, ascii, taskPrefix);
            if outcome.Created?
            then
              && outcome == Created(newId) && Added(db, next, newId)
              && (forall x | x in db.workspaces :: db.workspaces[x].personalOf != Some(actor))
              && var w := next.workspaces[newId];
                 IsNew(w, name, w.state.slug, taskPrefix, actor, Some(actor)) && IsSlugOf(db, None, ascii, w.state.slug)
            else next == db
  {
    if x :| x in db.workspaces && db.workspaces[x].personalOf == Some(actor) {
      assert IsPersonal(db, x, actor);
    }
  }

  // ---- Edits ----

  /** The edit sets this field. */
  predicate Sets(change: ChangeSet, field: Field) {
    match field
    case Name => change.name.Some?
    case Slug => change.slug.Some?
    case TaskPrefix => change.taskPrefix.Some?
    case IconAssetId => change.iconAssetId.Some?
    case DeletedAt => false
  }

  ghost function SetFields(change: ChangeSet): set<Field> {
    set f: Field | Sets(change, f)
  }

  lemma SentAreSet(change: ChangeSet)
    ensures forall f :: f in SentFields(change) <==> f in SetFields(change)
  {
  }

  ghost predicate IsHere(db: Db, id: Id, member: bool) {
    member && id in db.workspaces && db.workspaces[id].state.deletedAt.None?
  }

  /** The edit asks for another slug, one that leads to someone else. */
  ghost predicate TakesOthers(db: Db, id: Id, change: ChangeSet)
    requires id in db.workspaces
  {
    && change.slug.Some? && change.slug.value != db.workspaces[id].state.slug
    && !(Resolve(db, change.slug.value) <= {id})
  }

  /** Everything the edit sets is as it already is. */
  ghost predicate SetsNothingNew(state: WorkspaceState, change: ChangeSet) {
    && (change.name.Some? ==> change.name.value == state.name)
    && (change.slug.Some? ==> change.slug.value == state.slug)
    && (change.taskPrefix.Some? ==> change.taskPrefix.value == state.taskPrefix)
    && (change.iconAssetId.Some? ==> change.iconAssetId.value == state.iconAssetId)
  }

  predicate SetsAny(change: ChangeSet) {
    change.name.Some? || change.slug.Some? || change.taskPrefix.Some? || change.iconAssetId.Some?
  }

  /** How exactly an edit is answered. */
  lemma EditAnswer(db: Db, id: Id, actor: Id, member: bool, base: int, change: ChangeSet)
    requires SlugSafety.Inv(db)
    ensures var outcome := EditStep(db, id, actor, member, base, change).1;
            var invalid := if change.slug.Some? then Slugs.Validate(change.slug.value) else None;
            if !IsHere(db, id, member) then outcome == Refused(NotFound)
            else if !SetsAny(change) then outcome == Refused(EmptyRequest)
            else if invalid.Some? then outcome == Refused(InvalidSlug(invalid.value))
            else if base > db.workspaces[id].version then outcome == Refused(FutureVersion)
            else if Overtaken(db.log, id, base, SetFields(change))
                then outcome.Refused? && outcome.error.EditConflict?
                     && Reports(outcome.error.found, db.log, id, base, SetFields(change))
            else if TakesOthers(db, id, change) then outcome == Refused(SlugTaken)
            else outcome == if SetsNothingNew(db.workspaces[id].state, change) then Unchanged(id) else Done(id)
  {
    if IsHere(db, id, member) {
      var state := db.workspaces[id].state;
      var edited := EditedState(state, change);
      SentAreSet(change);
    ConflictsReport(db.log, id, base, SentFields(change), SetFields(change));
      SlugSafety.UpdateRefused(db, id, edited, actor, member);
      WorkspaceHistory.DiffEmpty(state, edited);
    }
  }

  /** Whether some request changed a field that the edit sets. */
  ghost predicate ChangedSince(seen: Db, since: seq<Step>, id: Id, change: ChangeSet) {
    exists f :: Sets(change, f) && WorkspaceHistory.ChangedDuring(seen, since, id, f)
  }

  lemma OvertakenIsChanged(seen: Db, since: seq<Step>, id: Id, change: ChangeSet)
    requires H.Bounded(WorkspaceHistory.View(seen)) && id in seen.workspaces
    ensures Overtaken(Run(seen, since).log, id, seen.workspaces[id].version, SetFields(change))
       <==> ChangedSince(seen, since, id, change)
  {
    var log, base := Run(seen, since).log, seen.workspaces[id].version;
    SentAreSet(change);
    ConflictsReport(log, id, base, SentFields(change), SetFields(change));
    WorkspaceHistory.ConflictsAreChanges(seen, since, id, SentFields(change));
    var found := Conflicts(log, id, base, SentFields(change));
    if f :| f in found {
      assert Sets(change, f) && WorkspaceHistory.ChangedDuring(seen, since, id, f);
    }
  }

  lemma VersionsGrow(seen: Db, since: seq<Step>, id: Id)
    requires H.Bounded(WorkspaceHistory.View(seen)) && id in seen.workspaces
    ensures id in Run(seen, since).workspaces
    ensures seen.workspaces[id].version <= Run(seen, since).workspaces[id].version
  {
    WorkspaceHistory.LogReplaysEveryState(seen, since);
    assert H.ReplaysRow(WorkspaceHistory.View(seen), WorkspaceHistory.View(Run(seen, since)), FIELDS, id);
  }

  lemma EditRefused(seen: Db, since: seq<Step>, id: Id, actor: Id, member: bool, change: ChangeSet)
    requires SlugSafety.Inv(seen) && H.Bounded(WorkspaceHistory.View(seen)) && id in seen.workspaces
    requires IsHere(Run(seen, since), id, member) && SetsAny(change)
    requires change.slug.Some? ==> Slugs.Validate(change.slug.value).None?
    ensures EditStep(Run(seen, since), id, actor, member, seen.workspaces[id].version, change).1.Refused?
       <==> ChangedSince(seen, since, id, change) || TakesOthers(Run(seen, since), id, change)
  {
    SlugSafety.RunKeepsInv(seen, since);
    OvertakenIsChanged(seen, since, id, change);
    VersionsGrow(seen, since, id);
    EditAnswer(Run(seen, since), id, actor, member, seen.workspaces[id].version, change);
  }

  /** A well-formed edit of a workspace that is there, made on any state reached from an empty instance and sent after
      any further requests, is refused exactly when one of these changed a field that it sets, or it takes a slug that
      leads to someone else. */
  lemma EditRefusedExactly(start: Time, before: seq<Step>, since: seq<Step>, id: Id, actor: Id, member: bool,
                           change: ChangeSet)
    requires id in Run(Empty(start), before).workspaces && SetsAny(change)
    requires IsHere(Run(Run(Empty(start), before), since), id, member)
    requires change.slug.Some? ==> Slugs.Validate(change.slug.value).None?
    ensures var seen := Run(Empty(start), before);
            var now := Run(seen, since);
            EditStep(now, id, actor, member, seen.workspaces[id].version, change).1.Refused?
            <==> ChangedSince(seen, since, id, change) || TakesOthers(now, id, change)
  {
    WorkspaceHistory.LogReplaysEveryState(Empty(start), before);
    SlugSafety.RunKeepsInv(Empty(start), before);
    EditRefused(Run(Empty(start), before), since, id, actor, member, change);
  }

  // ---- Delete and restore ----

  /** The user may not even see the workspace: no member, or deleted by someone else or 30 days ago. */
  ghost predicate IsHidden(db: Db, id: Id, actor: Id, member: bool) {
    || !member || id !in db.workspaces
    || (var w := db.workspaces[id];
        w.state.deletedAt.Some? && (w.owner != actor || db.now - w.state.deletedAt.value >= 30 * DAY))
  }

  /** How exactly a delete is answered. */
  lemma DeleteAnswer(db: Db, id: Id, actor: Id, member: bool)
    requires SlugSafety.Inv(db)
    ensures DeleteStep(db, id, actor, member).1
         == if IsHidden(db, id, actor, member) then Refused(NotFound)
            else if db.workspaces[id].owner != actor || db.workspaces[id].personalOf.Some? then Refused(AccessDenied)
            else if db.workspaces[id].state.deletedAt.Some? then Unchanged(id) else Done(id)
  {
    if id in db.workspaces {
      var next := db.workspaces[id].state.(deletedAt := Some(db.now));
      SlugSafety.UpdateRefused(db, id, next, actor, member);
      WorkspaceHistory.UpdateSaves(db, id, next, actor, member);
    }
  }

  /** How exactly a restore is answered. */
  lemma RestoreAnswer(db: Db, id: Id, actor: Id, member: bool)
    requires SlugSafety.Inv(db)
    ensures RestoreStep(db, id, actor, member).1
         == if IsHidden(db, id, actor, member) then Refused(NotFound)
            else if db.workspaces[id].owner != actor || db.workspaces[id].personalOf.Some? then Refused(AccessDenied)
            else if db.workspaces[id].state.deletedAt.Some? then Done(id) else Unchanged(id)
  {
    if id in db.workspaces {
      var next := db.workspaces[id].state.(deletedAt := None);
      SlugSafety.UpdateRefused(db, id, next, actor, member);
      WorkspaceHistory.UpdateSaves(db, id, next, actor, member);
    }
  }
}
