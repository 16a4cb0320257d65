/** Every user's personal workspace: one, the same each time it is asked for, never deleted. */
module PersonalWorkspace {
  import opened Base
  import opened WorkspaceSteps
  import S = SlugSafety

  /** At most one personal workspace a user, none of them deleted. */
  ghost predicate OnePersonal(db: Db) {
    && (forall id | id in db.workspaces && db.workspaces[id].personalOf.Some? ::
          db.workspaces[id].state.deletedAt.None?)
    && (forall a, b, user | IsPersonal(db, a, user) && IsPersonal(db, b, user) :: a == b)
  }

  /** The personal workspaces of `b` are those of `c` too. */
  ghost predicate PersonalStay(b: Db, c: Db) {
    forall id, user | IsPersonal(b, id, user) :: IsPersonal(c, id, user)
  }

  lemma UpdateKeepsPersonal(db: Db, id: Id, next: WorkspaceState, actor: Id, member: bool)
    requires OnePersonal(db) && id in db.workspaces
    requires db.workspaces[id].personalOf.Some? ==> next.deletedAt.None?
    ensures var u := Update(db, id, next, actor, member).0;
            OnePersonal(u) && PersonalStay(db, u)
  {
    var u := Update(db, id, next, actor, member).0;
    assert forall x :: x in u.workspaces <==> x in db.workspaces;
    assert forall x | x in db.workspaces :: u.workspaces[x].personalOf == db.workspaces[x].personalOf;
    assert forall x, user :: IsPersonal(u, x, user) <==> IsPersonal(db, x, user);
  }

  lemma InsertKeepsPersonal(db: Db, id: Id, workspace: Workspace)
    requires OnePersonal(db) && workspace.state.deletedAt.None?
    requires workspace.personalOf.Some? ==> forall x :: !IsPersonal(db, x, workspace.personalOf.value)
    ensures var u := Insert(db, id, workspace).0;
            OnePersonal(u) && PersonalStay(db, u)
  {
    var u := Insert(db, id, workspace).0;
    assert forall x, user | IsPersonal(u, x, user) :: x == id || IsPersonal(db, x, user);
  }

  lemma NextKeepsPersonal(db: Db, step: Step)
    requires OnePersonal(db)
    ensures OnePersonal(Next(db, step)) && PersonalStay(db, Next(db, step))
  {
    match step
    case Tick(elapsed) =>
      assert forall x, user :: IsPersonal(Next(db, step), x, user) <==> IsPersonal(db, x, user);
    case Create(id, actor, name, slug, ascii, taskPrefix) =>
      InsertKeepsPersonal(db, id, NewWorkspace(name, slug.GetOr(GeneratedSlug(db, ascii)), taskPrefix, actor, None));
    case EnsurePersonal(actor, newId, name, ascii, taskPrefix) =>
      if !exists id :: IsPersonal(db, id, actor) {
        InsertKeepsPersonal(db, newId, NewWorkspace(name, GeneratedSlug(db, ascii), taskPrefix, actor, Some(actor)));
      }
    case Edit(id, actor, member, _, change) =>
      if id in db.workspaces {
        UpdateKeepsPersonal(db, id, EditedState(db.workspaces[id].state, change), actor, member);
      }
    case SoftDelete(id, actor, member) =>
      if id in db.workspaces && db.workspaces[id].personalOf.None? {
        UpdateKeepsPersonal(db, id, db.workspaces[id].state.(deletedAt := Some(db.now)), actor, member);
      }
    case Restore(id, actor, member) =>
      if id in db.workspaces {
        UpdateKeepsPersonal(db, id, db.workspaces[id].state.(deletedAt := None), actor, member);
      }
  }

  lemma {:induction false} RunKeepsPersonal(db: Db, steps: seq<Step>)
    requires OnePersonal(db)
    ensures OnePersonal(Run(db, steps)) && PersonalStay(db, Run(db, steps))
    decreases |steps|
  {
    if steps != [] {
      NextKeepsPersonal(db, steps[0]);
      RunKeepsPersonal(Next(db, steps[0]), steps[1..]);
    }
  }

  /** In any reachable state a user who asks gets a personal workspace, under a fresh id when there is none yet; it is
      there and not deleted after any further requests, and asking again is answered with the same one and writes
      nothing. */
  lemma PersonalStays(start: Time, before: seq<Step>, actor: Id, newId: Id, name: string, ascii: string,
                      taskPrefix: string, between: seq<Step>, otherId: Id)
    requires newId !in Run(Empty(start), before).workspaces
    ensures var (asked, outcome) := PersonalStep(Run(Empty(start), before), actor, newId, name, ascii, taskPrefix);
            var later := Run(asked, between);
            && (outcome.Created? || outcome.Existed?)
            && IsPersonal(later, outcome.workspace, actor)
            && later.workspaces[outcome.workspace].state.deletedAt.None?
            && PersonalStep(later, actor, otherId, name, ascii, taskPrefix) == (later, Existed(outcome.workspace))
  {
    RunKeepsPersonal(Empty(start), before);
    var db := Run(Empty(start), before);
    var step := EnsurePersonal(actor, newId, name, ascii, taskPrefix);
    S.GeneratedIsFree(db, ascii);
    NextKeepsPersonal(db, step);
    var (asked, outcome) := PersonalStep(db, actor, newId, name, ascii, taskPrefix);
    assert asked == Next(db, step) && IsPersonal(asked, outcome.workspace, actor);
    RunKeepsPersonal(asked, between);
    AskedAgain(Run(asked, between), actor, otherId, name, ascii, taskPrefix, outcome.workspace);
  }

  lemma AskedAgain(db: Db, actor: Id, newId: Id, name: string, ascii: string, taskPrefix: string, id: Id)
    requires OnePersonal(db) && IsPersonal(db, id, actor)
    ensures PersonalStep(db, actor, newId, name, ascii, taskPrefix) == (db, Existed(id))
  {
  }
}
