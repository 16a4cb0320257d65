/** The tables of workspaces, their old slugs and their history, changed one request at a time. */
module WorkspaceStore {
  import opened Base
  import opened ChangeLog
  import Slugs
  import Steps = WorkspaceSteps
  import opened WorkspaceSteps
  import SlugSafety
  import PersonalWorkspace
  import WorkspaceHistory

  class Store {
    var workspaces: map<Id, Workspace>
    var aliases: map<string, Alias>
    var log: seq<WorkspaceRow>
    var now: Time

    ghost function Contents(): Db
      reads this
    {
      Db(workspaces, aliases, log, now)
    }

    /** Slugs lead to one workspace at most, users have one personal workspace at most. */
    ghost predicate Valid()
      reads this
    {
      SlugSafety.Inv(Contents()) && PersonalWorkspace.OnePersonal(Contents())
    }

    constructor (start: Time)
      ensures Contents() == Empty(start) && Valid()
    {
      workspaces, aliases, log, now := map[], map[], [], start;
    }

    function Read(): (db: Db)
      reads this
      ensures db == Contents()
    {
      Db(workspaces, aliases, log, now)
    }

    /** The slug for a name: the first free one of its family. */
    method MakeSlug(ascii: string) returns (slug: string)
      ensures slug == GeneratedSlug(Contents(), ascii)
      ensures !IsCurrent(Contents(), slug) && slug !in aliases
    {
      var base := Slugs.NameToSlug(ascii);
      var similar := SimilarSlugs(Read(), base);
      slug := Slugs.FindAvailable(base, similar);
      Slugs.AvailableUnique(base, similar, slug, Slugs.Available(base, similar));
      SlugSafety.GeneratedIsFree(Contents(), ascii);
    }

    method InitWorkspace(id: Id, workspace: Workspace) returns (outcome: Outcome)
      modifies `workspaces
      ensures (Contents(), outcome) == Insert(old(Contents()), id, workspace)
    {
      if id in workspaces {
        return Existed(id);
      }
      if IsCurrent(Read(), workspace.state.slug) {
        return Refused(SlugTaken);
      }
      workspaces := workspaces[id := workspace];
      outcome := Created(id);
    }

    method CreateWorkspace(id: Id, actor: Id, name: string, slug: Option<string>, ascii: string, taskPrefix: string)
      returns (outcome: Outcome)
      requires Valid()
      modifies `workspaces
      ensures (Contents(), outcome) == CreateStep(old(Contents()), id, actor, name, slug, ascii, taskPrefix)
      ensures Valid()
    {
      SlugSafety.NextKeepsInv(Contents(), Create(id, actor, name, slug, ascii, taskPrefix));
      PersonalWorkspace.NextKeepsPersonal(Contents(), Create(id, actor, name, slug, ascii, taskPrefix));
      if slug.Some? {
        var invalid := Slugs.Validate(slug.value);
        if invalid.Some? {
          return Refused(InvalidSlug(invalid.value));
        }
        if IsSlugTaken(Read(), slug.value) {
          return Refused(SlugTaken);
        }
      }
      var chosen := slug.GetOr("");
      if slug.None? {
        chosen := MakeSlug(ascii);
      }
      outcome := InitWorkspace(id, NewWorkspace(name, chosen, taskPrefix, actor, None));
      outcome := AnswerExisting(Read(), outcome, actor);
    }

    /** Looks for one first, and inserts only when there is none. */
    method EnsurePersonalWorkspace(actor: Id, newId: Id, name: string, ascii: string, taskPrefix: string)
      returns (outcome: Outcome)
      requires Valid()
      modifies `workspaces
      ensures (Contents(), outcome) == PersonalStep(old(Contents()), actor, newId, name, ascii, taskPrefix)
      ensures Valid()
    {
      SlugSafety.NextKeepsInv(Contents(), EnsurePersonal(actor, newId, name, ascii, taskPrefix));
      PersonalWorkspace.NextKeepsPersonal(Contents(), EnsurePersonal(actor, newId, name, ascii, taskPrefix));
      if id :| id in workspaces && workspaces[id].personalOf == Some(actor) {
        PersonalWorkspace.AskedAgain(Contents(), actor, newId, name, ascii, taskPrefix, id);
        return Existed(id);
      }
      assert forall id :: !IsPersonal(Contents(), id, actor);
      var slug := MakeSlug(ascii);
      outcome := InitWorkspace(newId, NewWorkspace(name, slug, taskPrefix, actor, Some(actor)));
    }

    /** The slug that was left redirects for 90 days, one that is taken up redirects no more, and every other alias
        stays. */
    method MoveSlug(id: Id, before: string, after: string)
      requires before != after
      modifies `aliases
      ensures aliases == Steps.MoveSlug(old(aliases), id, before, after, now)
      ensures LiveAlias(Contents(), before) && !LiveAlias(Contents(), after)
      ensures SlugSafety.Held(Db(workspaces, aliases, log, now), before, id, now + ALIAS_LIFE) <== id in workspaces
      ensures forall slug | slug != before && slug != after ::
                LiveAlias(Contents(), slug) <==> LiveAlias(old(Contents()), slug)
      ensures forall slug | slug != before && slug in aliases ::
                slug in old(aliases) && aliases[slug] == old(aliases)[slug]
    {
      aliases := aliases - {after};
      aliases := aliases[before := Alias(id, now + ALIAS_LIFE)];
    }

    /** Refused for a slug that leads to someone else; otherwise the fields are saved, unless none differs. */
    method UpdateWorkspace(id: Id, next: WorkspaceState, actor: Id, member: bool) returns (outcome: Outcome)
      requires Valid() && id in workspaces
      requires workspaces[id].personalOf.Some? ==> next.deletedAt.None?
      modifies this
      ensures (Contents(), outcome) == Update(old(Contents()), id, next, actor, member)
      ensures Valid()
      ensures outcome.Unchanged? <==> next == old(workspaces)[id].state
      ensures outcome.Refused?
         <==> next.slug != old(workspaces)[id].state.slug
              && !(Resolve(old(Contents()), next.slug) <= if member then {id} else {})
      ensures if outcome.Done? then IsSaved(old(Contents()), Contents(), id, next, actor)
              else Contents() == old(Contents())
    {
      UpdateFacts(Contents(), id, next, actor, member);
      outcome := WriteUpdate(id, next, actor, member);
    }

    /** The tests and writes of an update, in order. */
    method WriteUpdate(id: Id, next: WorkspaceState, actor: Id, member: bool) returns (outcome: Outcome)
      requires id in workspaces
      modifies this
      ensures (Contents(), outcome) == Update(old(Contents()), id, next, actor, member)
    {
      var current := workspaces[id];
      var diff := StateDiff(current.state, next);
      if diff == [] {
        return Unchanged(id);
      }
      var slugChanged := next.slug != current.state.slug;
      if slugChanged && IsSlugTaken(Read(), next.slug) && !IsOwnSlug(Read(), member, id, next.slug) {
        return Refused(SlugTaken);
      }
      if CurrentElsewhere(Read(), id, next.slug) {
        return Refused(SlugTaken);
      }
      var version := current.version + 1;
      workspaces := workspaces[id := current.(state := next, version := version)];
      if slugChanged {
        MoveSlug(id, current.state.slug, next.slug);
      }
      log := log + Rows(id, version, actor, diff);
      outcome := Done(id);
    }

    /** An edit of some fields: accepted, every field has the value sent, and every other the one it had. */
    method PatchWorkspace(id: Id, actor: Id, member: bool, base: int, change: ChangeSet) returns (outcome: Outcome)
      requires Valid()
      modifies this
      ensures (Contents(), outcome) == EditStep(old(Contents()), id, actor, member, base, change)
      ensures Valid()
      ensures outcome.Refused? ==> Contents() == old(Contents())
      ensures !outcome.Refused? ==>
                && id in old(workspaces) && id in workspaces
                && (forall f :: workspaces[id].state.Get(f)
                      == WorkspaceHistory.SentValue(change, f).GetOr(old(workspaces)[id].state.Get(f)))
                && (forall f | f in SentFields(change) :: Untouched(old(log), id, f, base))
      ensures outcome.Done? ==> IsSaved(old(Contents()), Contents(), id, workspaces[id].state, actor)
    {
      if !member || id !in workspaces || workspaces[id].state.deletedAt.Some? {
        return Refused(NotFound);
      }
      WorkspaceHistory.AcceptedEditWrites(Contents(), id, actor, member, base, change);
      if change.IsEmpty() {
        return Refused(EmptyRequest);
      }
      if change.slug.Some? {
        var invalid := Slugs.Validate(change.slug.value);
        if invalid.Some? {
          return Refused(InvalidSlug(invalid.value));
        }
      }
      if base > workspaces[id].version {
        return Refused(FutureVersion);
      }
      var found := Conflicts(log, id, base, SentFields(change));
      if found != map[] {
        return Refused(EditConflict(found));
      }
      assert forall f | f in SentFields(change) :: f !in found;
      outcome := UpdateWorkspace(id, EditedState(workspaces[id].state, change), actor, member);
    }

    /** Its owner deletes a workspace that is not personal: it keeps its slug and everything else. */
    method SoftDeleteWorkspace(id: Id, actor: Id, member: bool) returns (outcome: Outcome)
      requires Valid()
      modifies this
      ensures (Contents(), outcome) == DeleteStep(old(Contents()), id, actor, member)
      ensures Valid()
      ensures outcome.Done?
         <==> member && id in old(workspaces) && IsDeletable(old(workspaces)[id], actor)
              && old(workspaces)[id].state.deletedAt.None?
      ensures if outcome.Done?
              then IsSaved(old(Contents()), Contents(), id, old(workspaces)[id].state.(deletedAt := Some(now)), actor)
              else Contents() == old(Contents())
    {
      var refusal := OwnerRefusal(Read(), id, actor, member);
      if refusal.Some? {
        return Refused(refusal.value);
      }
      if workspaces[id].state.deletedAt.Some? {
        return Unchanged(id);
      }
      outcome := UpdateWorkspace(id, workspaces[id].state.(deletedAt := Some(now)), actor, member);
    }

    /** Its owner brings back a workspace deleted less than 30 days ago. */
    method RestoreWorkspace(id: Id, actor: Id, member: bool) returns (outcome: Outcome)
      requires Valid()
      modifies this
      ensures (Contents(), outcome) == RestoreStep(old(Contents()), id, actor, member)
      ensures Valid()
      ensures outcome.Done?
         <==> member && id in old(workspaces) && IsDeletable(old(workspaces)[id], actor)
              && old(workspaces)[id].state.deletedAt.Some?
              && now - old(workspaces)[id].state.deletedAt.value < RESTORE_WINDOW
      ensures if outcome.Done?
              then IsSaved(old(Contents()), Contents(), id, old(workspaces)[id].state.(deletedAt := None), actor)
              else Contents() == old(Contents())
    {
      var refusal := OwnerRefusal(Read(), id, actor, member);
      if refusal.Some? {
        return Refused(refusal.value);
      }
      outcome := UpdateWorkspace(id, workspaces[id].state.(deletedAt := None), actor, member);
    }
  }

  /** What one update of a workspace leaves, apart from how it gets there: the fields saved as one version, the
      history with what changed, and the slugs leading where they should. */
  ghost predicate IsSaved(b: Db, c: Db, id: Id, next: WorkspaceState, actor: Id)
    requires id in b.workspaces
  {
    && WorkspaceHistory.Saved(b, c, id, next, actor)
    && SlugSafety.Readdressed(b, c, id)
    && (next.slug != b.workspaces[id].state.slug ==>
          SlugSafety.Held(c, b.workspaces[id].state.slug, id, b.now + ALIAS_LIFE))
  }

  predicate IsDeletable(workspace: Workspace, actor: Id) {
    workspace.owner == actor && workspace.personalOf.None?
  }

  lemma UpdateFacts(db: Db, id: Id, next: WorkspaceState, actor: Id, member: bool)
    requires SlugSafety.Inv(db) && PersonalWorkspace.OnePersonal(db) && id in db.workspaces
    requires db.workspaces[id].personalOf.Some? ==> next.deletedAt.None?
    ensures var (c, outcome) := Update(db, id, next, actor, member);
            && SlugSafety.Inv(c) && PersonalWorkspace.OnePersonal(c)
            && (outcome.Unchanged? <==> next == db.workspaces[id].state)
            && (outcome.Refused? <==> next.slug != db.workspaces[id].state.slug
                                      && !(Resolve(db, next.slug) <= if member then {id} else {}))
            && (if outcome.Done? then IsSaved(db, c, id, next, actor) else c == db)
  {
    SlugSafety.UpdateKeepsInv(db, id, next, actor, member);
    PersonalWorkspace.UpdateKeepsPersonal(db, id, next, actor, member);
    WorkspaceHistory.UpdateSaves(db, id, next, actor, member);
    SlugSafety.UpdateRefused(db, id, next, actor, member);
    SlugSafety.UpdateReaddresses(db, id, next, actor, member);
    SlugSafety.UpdateLeaves(db, id, next, actor, member, id);
  }
}
