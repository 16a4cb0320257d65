/** Edits of a workspace by field: every field of it is logged, so its log replays to every past state and
    an accepted edit never overwrites a value its author did not see. */
module WorkspaceHistory {
  import opened Base
  import opened ChangeLog
  import H = History
  import opened WorkspaceSteps

  ghost function Snap(workspace: Workspace): H.Snapshot<Field, Value> {
    H.Snapshot(workspace.version, f => workspace.state.Get(f))
  }

  ghost function View(db: Db): H.Store<Field, Value> {
    H.Store(map x | x in db.workspaces :: Snap(db.workspaces[x]), db.log)
  }

  ghost predicate Logged(b: Db, c: Db) {
    H.Logged(View(b), View(c), FIELDS, FIELDS)
  }

  lemma FieldTracked(f: Field)
    ensures f in FIELDS
  {
    assert FIELDS[0] == Name && FIELDS[1] == Slug && FIELDS[2] == TaskPrefix;
    assert FIELDS[3] == IconAssetId && FIELDS[4] == DeletedAt;
  }

  /** Nothing is recorded exactly when nothing changes. */
  lemma DiffEmpty(current: WorkspaceState, next: WorkspaceState)
    ensures StateDiff(current, next) == [] <==> next == current
  {
    forall f: Field | current.Get(f) != next.Get(f) ensures StateDiff(current, next) != [] {
      FieldTracked(f);
      DiffRecorded(FIELDS, g => current.Get(g), g => next.Get(g), 0, 1, 0, f, 0);
    }
    if current != next {
      assert current.Get(Name) != next.Get(Name) || current.Get(Slug) != next.Get(Slug)
          || current.Get(TaskPrefix) != next.Get(TaskPrefix) || current.Get(IconAssetId) != next.Get(IconAssetId)
          || current.Get(DeletedAt) != next.Get(DeletedAt);
    }
    NothingDiffers(FIELDS, f => current.Get(f));
  }

  lemma AllKept(b: Db, c: Db)
    requires b.log == c.log && forall x | x in b.workspaces :: x in c.workspaces && c.workspaces[x] == b.workspaces[x]
    ensures Logged(b, c)
  {
    forall x | x in b.workspaces ensures H.Kept(View(b), View(c), FIELDS, x) {}
  }

  lemma UpdateLogged(db: Db, id: Id, next: WorkspaceState, actor: Id, member: bool)
    requires id in db.workspaces
    ensures Logged(db, Update(db, id, next, actor, member).0)
  {
    AllKept(db, db);
    var (c, outcome) := Update(db, id, next, actor, member);
    if outcome.Done? {
      var was, becomes := db.workspaces[id], c.workspaces[id];
      H.SameDiff(FIELDS, f => was.state.Get(f), f => next.Get(f), Snap(was).get, Snap(becomes).get);
      forall x | x in db.workspaces && x != id ensures H.Kept(View(db), View(c), FIELDS, x) {}
      assert H.Recorded(View(db), View(c), FIELDS, FIELDS, id, actor);
    }
  }

  /** The workspace has its next version, with these fields, and the log what changed; no other workspace differs. */
  ghost predicate Saved(b: Db, c: Db, id: Id, next: WorkspaceState, actor: Id)
    requires id in b.workspaces
  {
    var was := b.workspaces[id].state;
    && c.now == b.now
    && c.workspaces.Keys == b.workspaces.Keys
    && (forall x | x in b.workspaces && x != id :: c.workspaces[x] == b.workspaces[x])
    && c.workspaces[id] == b.workspaces[id].(state := next, version := b.workspaces[id].version + 1)
    && b.log <= c.log
    && Records(c.log[|b.log|..], id, c.workspaces[id].version, actor, FIELDS, f => was.Get(f), f => next.Get(f))
  }

  lemma WrittenSaves(db: Db, c: Db, id: Id, next: WorkspaceState, actor: Id)
    requires id in db.workspaces && c.now == db.now
    requires c.workspaces
          == db.workspaces[id := db.workspaces[id].(state := next, version := db.workspaces[id].version + 1)]
    requires c.log == db.log + Rows(id, db.workspaces[id].version + 1, actor, StateDiff(db.workspaces[id].state, next))
    ensures Saved(db, c, id, next, actor)
  {
    var was := db.workspaces[id].state;
    DiffRecords(id, c.workspaces[id].version, actor, FIELDS, f => was.Get(f), f => next.Get(f));
    assert c.log[|db.log|..] == Rows(id, c.workspaces[id].version, actor, StateDiff(was, next));
  }

  /** An update that is done saves the fields; one that changes none of them does nothing. */
  lemma UpdateSaves(db: Db, id: Id, next: WorkspaceState, actor: Id, member: bool)
    requires id in db.workspaces
    ensures var (c, outcome) := Update(db, id, next, actor, member);
            && (outcome.Unchanged? <==> next == db.workspaces[id].state)
            && (if outcome.Done? then Saved(db, c, id, next, actor) else c == db)
  {
    var (c, outcome) := Update(db, id, next, actor, member);
    DiffEmpty(db.workspaces[id].state, next);
    if outcome.Done? { WrittenSaves(db, c, id, next, actor); }
  }

  lemma NextLogged(db: Db, step: Step)
    ensures Logged(db, Next(db, step))
  {
    match step
    case Tick(_) => AllKept(db, Next(db, step));
    case Create(_, _, _, _, _, _) => AllKept(db, Next(db, step));
    case EnsurePersonal(_, _, _, _, _) => AllKept(db, Next(db, step));
    case _ =>
      var id, next, actor, member := EndsInUpdate(db, step);
      AllKept(db, db);
      if next.Some? { UpdateLogged(db, id, next.value, actor, member); }
  }

  lemma {:induction false} RunReplays(a: H.Store<Field, Value>, b: Db, steps: seq<Step>)
    requires H.Bounded(View(b)) && H.Replays(a, View(b), FIELDS)
    ensures H.Replays(a, View(Run(b, steps)), FIELDS) && H.Bounded(View(Run(b, steps)))
    decreases |steps|
  {
    if steps != [] {
      var next := Next(b, steps[0]);
      NextLogged(b, steps[0]);
      H.NextBounded(View(b), View(next), FIELDS, FIELDS);
      H.NextReplays(a, View(b), View(next), FIELDS, FIELDS);
      RunReplays(a, next, steps[1..]);
    }
  }

  /** The log replays to every past state: from any later state of a run, every field of every workspace
      is taken back to what it was. */
  lemma LogReplaysEveryState(earlier: Db, steps: seq<Step>)
    requires H.Bounded(View(earlier))
    ensures H.Replays(View(earlier), View(Run(earlier, steps)), FIELDS) && H.Bounded(View(Run(earlier, steps)))
  {
    H.ReplaysItself(View(earlier), FIELDS);
    RunReplays(View(earlier), earlier, steps);
  }

  /** An accepted edit never overwrites a newer value: every field it sends still has the value it had in
      the state the edit was made on, whatever ran since. */
  lemma AcceptedEditSawCurrent(seen: Db, steps: seq<Step>, id: Id, actor: Id, member: bool, base: int,
                               change: ChangeSet)
    requires H.Bounded(View(seen)) && id in seen.workspaces && base == seen.workspaces[id].version
    ensures var now := Run(seen, steps);
            !EditStep(now, id, actor, member, base, change).1.Refused? ==>
              && id in now.workspaces
              && forall f | f in SentFields(change) ::
                   now.workspaces[id].state.Get(f) == seen.workspaces[id].state.Get(f)
  {
    var now := Run(seen, steps);
    LogReplaysEveryState(seen, steps);
    if !EditStep(now, id, actor, member, base, change).1.Refused? {
      var found := Conflicts(now.log, id, base, SentFields(change));
      forall f | f in SentFields(change) ensures now.workspaces[id].state.Get(f) == seen.workspaces[id].state.Get(f) {
        assert f !in found;
        FieldTracked(f);
        H.NoConflictSameValue(View(seen), View(now), FIELDS, id, f);
        assert View(now).rows[id].get(f) == View(seen).rows[id].get(f);
      }
    }
  }

  lemma EditedIs(state: WorkspaceState, change: ChangeSet, field: Field)
    ensures EditedState(state, change).Get(field) == SentValue(change, field).GetOr(state.Get(field))
  {
  }

  lemma EditUpdates(db: Db, id: Id, actor: Id, member: bool, base: int, change: ChangeSet)
    requires id in db.workspaces
    ensures var (next, outcome) := EditStep(db, id, actor, member, base, change);
            if outcome.Refused? then next == db
            else (next, outcome) == Update(db, id, EditedState(db.workspaces[id].state, change), actor, member)
  {
  }

  /** An accepted edit does what it sends, and nothing else: the state is the old one with the fields
      sent, under a new version exactly when something differs; no other workspace changes. */
  lemma AcceptedEditWrites(db: Db, id: Id, actor: Id, member: bool, base: int, change: ChangeSet)
    requires id in db.workspaces
    ensures var (next, outcome) := EditStep(db, id, actor, member, base, change);
            if outcome.Refused? then next == db
            else
              && next.workspaces.Keys == db.workspaces.Keys
              && (forall x | x in db.workspaces && x != id :: next.workspaces[x] == db.workspaces[x])
              && (forall f :: next.workspaces[id].state.Get(f)
                    == SentValue(change, f).GetOr(db.workspaces[id].state.Get(f)))
              && (if next.workspaces[id].state == db.workspaces[id].state
                  then next == db else next.workspaces[id].version == db.workspaces[id].version + 1)
  {
    var edited := EditedState(db.workspaces[id].state, change);
    EditUpdates(db, id, actor, member, base, change);
    UpdateSaves(db, id, edited, actor, member);
    forall f ensures edited.Get(f) == SentValue(change, f).GetOr(db.workspaces[id].state.Get(f)) {
      EditedIs(db.workspaces[id].state, change, f);
    }
  }

  function SentValue(change: ChangeSet, field: Field): Option<Value> {
    match field
    case Name => if change.name.Some? then Some(TextValue(change.name.value)) else None
    case Slug => if change.slug.Some? then Some(TextValue(change.slug.value)) else None
    case TaskPrefix => if change.taskPrefix.Some? then Some(TextValue(change.taskPrefix.value)) else None
    case IconAssetId => if change.iconAssetId.Some? then Some(AssetValue(change.iconAssetId.value)) else None
    case DeletedAt => None
  }

  /** Some request of the run changes the value of the field. */
  ghost predicate ChangedDuring(db: Db, steps: seq<Step>, id: Id, field: Field)
    decreases |steps|
  {
    && steps != []
    && id in db.workspaces
    && var next := Next(db, steps[0]);
       && id in next.workspaces
       && (next.workspaces[id].state.Get(field) != db.workspaces[id].state.Get(field) || ChangedDuring(next,
           steps[1..], id, field))
  }

  lemma {:induction false} RunTouches(db: Db, steps: seq<Step>, id: Id, f: Field, base: int)
    requires id in db.workspaces && base <= db.workspaces[id].version
    ensures Untouched(Run(db, steps).log, id, f, base)
       <==> Untouched(db.log, id, f, base) && !ChangedDuring(db, steps, id, f)
    decreases |steps|
  {
    if steps != [] {
      var next := Next(db, steps[0]);
      NextLogged(db, steps[0]);
      FieldTracked(f);
      H.StepTouches(View(db), View(next), FIELDS, FIELDS, id, f, base);
      assert View(next).rows[id].get(f) == next.workspaces[id].state.Get(f);
      RunTouches(next, steps[1..], id, f, base);
    }
  }

  /** The conflicts found are exactly the sent fields that some request changed since the version the edit
      was made on, even if they are back at the value they had. */
  lemma ConflictsAreChanges(seen: Db, steps: seq<Step>, id: Id, sent: seq<Field>)
    requires H.Bounded(View(seen)) && id in seen.workspaces
    ensures var found := Conflicts(Run(seen, steps).log, id, seen.workspaces[id].version, sent);
            forall f :: f in found <==> f in sent && ChangedDuring(seen, steps, id, f)
  {
    var base := seen.workspaces[id].version;
    var log := Run(seen, steps).log;
    forall f | f in sent ensures Untouched(log, id, f, base) <==> !ChangedDuring(seen, steps, id, f) {
      RunTouches(seen, steps, id, f, base);
      assert Untouched(View(seen).log, id, f, base);
    }
  }
}
