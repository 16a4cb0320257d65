/** Edits of a page by field: the log replays to every past state, so an accepted edit never overwrites a
    value its author did not see. */
module PageHistory {
  import opened Base
  import opened ChangeLog
  import H = History
  import opened Forest
  import opened PageSteps
  import opened PageTree

  /** Fields whose every change is logged. The key and the time of a delete also change without a row. */
  const TRACKED: seq<Field> := [Title, Icon, Kind, Parent]

  ghost function Snap(page: Page): H.Snapshot<Field, Value> {
    H.Snapshot(page.version, f => StateOf(page).Get(f))
  }

  ghost function View(db: Db): H.Store<Field, Value> {
    H.Store(map x | x in db.pages :: Snap(db.pages[x]), db.log)
  }

  ghost predicate Logged(b: Db, c: Db) {
    H.Logged(View(b), View(c), FIELDS, TRACKED)
  }

  lemma TrackedAreFields()
    ensures forall f | f in TRACKED :: f in FIELDS
  {
    assert FIELDS[0] == Title && FIELDS[1] == Icon && FIELDS[2] == Kind
        && FIELDS[3] == Parent && FIELDS[4] == Position && FIELDS[5] == DeletedAt;
  }

  // ---- Every request is logged ----

  ghost predicate SameTracked(p: Page, q: Page) {
    && p.version <= q.version
    && q.title == p.title && q.icon == p.icon && q.kind == p.kind && q.parent == p.parent
  }

  lemma KeptRow(b: Db, c: Db, x: Id)
    requires x in b.pages && x in c.pages && SameTracked(b.pages[x], c.pages[x])
    ensures H.Kept(View(b), View(c), TRACKED, x)
  {
  }

  lemma AllKept(b: Db, c: Db)
    requires b.log == c.log && forall x | x in b.pages :: x in c.pages && SameTracked(b.pages[x], c.pages[x])
    ensures Logged(b, c)
  {
    forall x | x in b.pages ensures H.Kept(View(b), View(c), TRACKED, x) { KeptRow(b, c, x); }
  }

  lemma UpdateLogged(b: Db, m: Db, id: Id, next: PageState, actor: Id)
    requires id in b.pages && id in m.pages && m.pages[id] == b.pages[id] && m.log == b.log
    requires forall x | x in b.pages :: x in m.pages && SameTracked(b.pages[x], m.pages[x])
    ensures var c := Update(m, id, b.pages[id], next, actor);
            c.Some? ==> Logged(b, c.value)
  {
    var c := Update(m, id, b.pages[id], next, actor);
    if c.Some? {
      var was, becomes := b.pages[id], c.value.pages[id];
      assert StateOf(becomes) == next;
      H.SameDiff(FIELDS, f => StateOf(was).Get(f), f => next.Get(f), Snap(was).get, Snap(becomes).get);
      forall x | x in b.pages && x != id ensures H.Kept(View(b), View(c.value), TRACKED, x) {
        KeptRow(b, c.value, x);
      }
      assert H.Recorded(View(b), View(c.value), FIELDS, TRACKED, id, actor);
    }
  }

  lemma RekeyedTracked(t: Table, u: Table)
    requires RekeyedTable(t, u)
    ensures forall x | x in t :: x in u && SameTracked(t[x], u[x])
  {
    forall x | x in t ensures SameTracked(t[x], u[x]) {
      assert Rekeyed(t[x], u[x]);
    }
  }

  lemma CreateLogged(db: Db, workspace: Id, actor: Id, request: CreateRequest, id: Id, generated: seq<string>)
    ensures Logged(db, CreateUnder(db, workspace, actor, request, id, generated).0)
  {
    PlaceRekeys(db.pages, workspace, request.parent, None, None);
    RekeyedTracked(db.pages, Place(db.pages, workspace, request.parent, None, None).pages);
    AllKept(db, CreateUnder(db, workspace, actor, request, id, generated).0);
  }

  lemma MoveLogged(db: Db, workspace: Id, actor: Id, id: Id, parent: Option<Id>, index: nat)
    requires LiveIn(db.pages, workspace, id)
    ensures Logged(db, MoveTo(db, workspace, actor, id, parent, index).0)
  {
    PlaceRekeys(db.pages, workspace, parent, Some(index), Some(id));
    var placed := Place(db.pages, workspace, parent, Some(index), Some(id));
    RekeyedTracked(db.pages, placed.pages);
    AllKept(db, db);
    UpdateLogged(db, Db(placed.pages, db.log), id,
                 StateOf(db.pages[id]).(parent := parent, position := placed.key), actor);
  }

  lemma PatchLogged(db: Db, workspace: Id, actor: Id, id: Id, base: int, change: ChangeSet, written: bool)
    ensures Logged(db, PatchStep(db, workspace, actor, id, base, change, written).0)
  {
    AllKept(db, db);
    if id in db.pages {
      UpdateLogged(db, db, id, PatchedState(db.pages[id], change), actor);
    }
  }

  lemma DeleteLogged(db: Db, workspace: Id, actor: Id, id: Id, at: Time)
    requires Rooted(db.pages)
    ensures Logged(db, DeleteStep(db, workspace, actor, id, at).0)
  {
    AllKept(db, db);
    if id in db.pages {
      UpdateLogged(db, Db(TrashDescendants(db.pages, id, at), db.log), id,
                   StateOf(db.pages[id]).(deletedAt := Some(at), deletedRoot := Some(id)), actor);
    }
  }

  lemma RestoreLogged(db: Db, actor: Id, id: Id)
    requires id in db.pages && !db.pages[id].Live()
    ensures Logged(db, RestoreRoot(db, actor, id).0)
  {
    var page := db.pages[id];
    PlaceRekeys(db.pages, page.workspace, None, None, None);
    AllKept(db, db);
    var alive := ParentAlive(db.pages, page);
    var placed :=
      if alive then Placement(page.position, db.pages) else Place(db.pages, page.workspace, None, None, None);
    RestoreCommitLogged(db, placed, id, if alive then page.parent else None, actor);
  }

  lemma RestoreCommitLogged(db: Db, placed: Placement, id: Id, parent: Option<Id>, actor: Id)
    requires id in db.pages && RekeyedTable(db.pages, placed.pages) && placed.pages[id] == db.pages[id]
    ensures var c := RestoreCommit(db, placed, id, parent, actor);
            c.Some? ==> Logged(db, c.value)
  {
    RekeyedTracked(db.pages, placed.pages);
    UpdateLogged(db, Db(RestoreDescendants(placed.pages, id), db.log), id,
                 StateOf(db.pages[id]).(parent := parent, position := placed.key, deletedAt := None,
                     deletedRoot := None), actor);
  }

  lemma CreateStepLogged(db: Db, workspace: Id, actor: Id, request: CreateRequest, newId: Id, generated: seq<string>)
    requires Rooted(db.pages)
    ensures Logged(db, CreateStep(db, workspace, actor, request, newId, generated).0)
  {
    AllKept(db, db);
    CreateLogged(db, workspace, actor, request, request.id.GetOr(newId), generated);
  }

  lemma MoveStepLogged(db: Db, workspace: Id, actor: Id, id: Id, parent: Option<Id>, index: nat)
    requires Inv(db.pages)
    ensures Logged(db, MoveStep(db, workspace, actor, id, parent, index).0)
  {
    AllKept(db, db);
    if LiveIn(db.pages, workspace, id) { MoveLogged(db, workspace, actor, id, parent, index); }
  }

  lemma RestoreStepLogged(db: Db, workspace: Id, actor: Id, id: Id)
    requires Inv(db.pages)
    ensures Logged(db, RestoreStep(db, workspace, actor, id).0)
  {
    AllKept(db, db);
    if id in db.pages && !db.pages[id].Live() { RestoreLogged(db, actor, id); }
  }

  lemma NextLogged(db: Db, step: Step)
    requires Inv(db.pages)
    ensures Logged(db, Next(db, step))
  {
    match step
    case Create(workspace, actor, request, newId, generated) =>
      CreateStepLogged(db, workspace, actor, request, newId, generated);
    case Move(workspace, actor, page, parent, index) => MoveStepLogged(db, workspace, actor, page, parent, index);
    case Patch(workspace, actor, page, base, change, written) =>
      PatchLogged(db, workspace, actor, page, base, change, written);
    case Delete(workspace, actor, page, at) => DeleteLogged(db, workspace, actor, page, at);
    case Restore(workspace, actor, page) => RestoreStepLogged(db, workspace, actor, page);
  }

  // ---- One update ----

  /** The page has its next version, with these fields, and the log what changed; nothing else differs. */
  ghost predicate Saved(b: Db, c: Db, id: Id, was: PageState, next: PageState, actor: Id)
    requires id in b.pages
  {
    && c.pages.Keys == b.pages.Keys
    && (forall x | x in b.pages && x != id :: c.pages[x] == b.pages[x])
    && StateOf(c.pages[id]) == next
    && c.pages[id].version == b.pages[id].version + 1
    && c.pages[id].workspace == b.pages[id].workspace
    && c.pages[id].shortId == b.pages[id].shortId && c.pages[id].createdBy == b.pages[id].createdBy
    && b.log <= c.log
    && Records(c.log[|b.log|..], id, c.pages[id].version, actor, FIELDS, f => was.Get(f), f => next.Get(f))
  }

  /** An update saves the fields exactly when one of them differs. */
  lemma UpdateSaves(db: Db, id: Id, current: Page, next: PageState, actor: Id)
    requires id in db.pages
    ensures Update(db, id, current, next, actor).Some? <==> next != StateOf(current)
    ensures Update(db, id, current, next, actor).Some? ==>
              Saved(db, Update(db, id, current, next, actor).value, id, StateOf(current), next, actor)
  {
    DiffEmpty(StateOf(current), next);
    if next != StateOf(current) {
      var c := Update(db, id, current, next, actor).value;
      var was := StateOf(current);
      DiffRecords(id, c.pages[id].version, actor, FIELDS, f => was.Get(f), f => next.Get(f));
      assert c.log[|db.log|..] == Rows(id, c.pages[id].version, actor, PageDiff(was, next));
    }
  }

  // ---- The log against every past state ----

  lemma {:induction false} RunReplays(a: H.Store<Field, Value>, b: Db, steps: seq<Step>)
    requires Inv(b.pages) && H.Bounded(View(b)) && H.Replays(a, View(b), TRACKED)
    ensures H.Replays(a, View(Run(b, steps)), TRACKED) && H.Bounded(View(Run(b, steps)))
    decreases |steps|
  {
    if steps != [] {
      var next := Next(b, steps[0]);
      NextLogged(b, steps[0]);
      TrackedAreFields();
      H.NextBounded(View(b), View(next), FIELDS, TRACKED);
      H.NextReplays(a, View(b), View(next), FIELDS, TRACKED);
      RunReplays(a, next, steps[1..]);
    }
  }

  /** The log replays to every past state: from any later state of a run, each page's title, icon, type
      and parent are taken back to what they were. */
  lemma LogReplaysEveryState(earlier: Db, steps: seq<Step>)
    requires Inv(earlier.pages) && H.Bounded(View(earlier))
    ensures H.Replays(View(earlier), View(Run(earlier, steps)), TRACKED) && H.Bounded(View(Run(earlier, steps)))
  {
    H.ReplaysItself(View(earlier), TRACKED);
    RunReplays(View(earlier), earlier, steps);
  }

  // ---- Edits ----

  lemma SentAreTracked(change: ChangeSet)
    ensures forall f | f in SentFields(change) :: f in TRACKED
  {
    assert TRACKED[0] == Title && TRACKED[1] == Icon && TRACKED[2] == Kind;
  }

  /** An accepted edit never overwrites a newer value: every field it sends still has the value it had
      in the state the edit was made on, whatever ran since. */
  lemma AcceptedEditSawCurrent(seen: Db, steps: seq<Step>, workspace: Id, actor: Id, id: Id, base: int,
                               change: ChangeSet, written: bool)
    requires Inv(seen.pages) && H.Bounded(View(seen)) && id in seen.pages && base == seen.pages[id].version
    ensures var now := Run(seen, steps);
            !PatchStep(now, workspace, actor, id, base, change, written).1.Refused? ==>
              && id in now.pages
              && forall f | f in SentFields(change) :: StateOf(now.pages[id]).Get(f) == StateOf(seen.pages[id]).Get(f)
  {
    var now := Run(seen, steps);
    LogReplaysEveryState(seen, steps);
    if !PatchStep(now, workspace, actor, id, base, change, written).1.Refused? {
      SentAreTracked(change);
      var found := Conflicts(now.log, id, base, SentFields(change));
      forall f | f in SentFields(change) ensures StateOf(now.pages[id]).Get(f) == StateOf(seen.pages[id]).Get(f) {
        assert f !in found;
        H.NoConflictSameValue(View(seen), View(now), TRACKED, id, f);
        assert View(now).rows[id].get(f) == View(seen).rows[id].get(f);
      }
    }
  }

  /** The page has every field sent at the value sent and every other as it was, under a new version
      exactly when something differs; no other page changes. */
  ghost predicate Edited(b: Db, c: Db, id: Id, change: ChangeSet)
    requires id in b.pages
  {
    && c.pages.Keys == b.pages.Keys
    && (forall x | x in b.pages && x != id :: c.pages[x] == b.pages[x])
    && var p, q := b.pages[id], c.pages[id];
       && (if change.title.Some? then q.title == change.title.value else q.title == p.title)
       && (if change.icon.Some? then q.icon == change.icon.value else q.icon == p.icon)
       && (if change.kind.Some? then q.kind == change.kind.value else q.kind == p.kind)
       && q == p.(title := q.title, icon := q.icon, kind := q.kind, version := q.version)
       && (if q.title == p.title && q.icon == p.icon && q.kind == p.kind then c == b else q.version == p.version + 1)
  }

  lemma UpdateEdits(db: Db, id: Id, change: ChangeSet, actor: Id)
    requires id in db.pages
    ensures Edited(db, Update(db, id, db.pages[id], PatchedState(db.pages[id], change), actor).GetOr(db), id, change)
  {
    DiffEmpty(StateOf(db.pages[id]), PatchedState(db.pages[id], change));
  }

  /** An accepted edit does what it sends, and nothing else. */
  lemma AcceptedEditWrites(db: Db, workspace: Id, actor: Id, id: Id, base: int, change: ChangeSet, written: bool)
    requires id in db.pages
    ensures var (next, outcome) := PatchStep(db, workspace, actor, id, base, change, written);
            if outcome.Refused? then next == db else Edited(db, next, id, change)
  {
    UpdateEdits(db, id, change, actor);
  }

  /** The type of a page changes only by an edit of that page, and only while it has no live children and nobody
      ever wrote to its body. */
  lemma KindOnlyOfEmpty(db: Db, step: Step, id: Id)
    requires Inv(db.pages) && id in db.pages
    requires id in Next(db, step).pages && Next(db, step).pages[id].kind != db.pages[id].kind
    ensures step.Patch? && step.page == id && !step.written
    ensures Children(db.pages, db.pages[id].workspace, Some(id), None) == []
  {
    if !(step.Patch? && step.page == id) { KindKept(db, step, id); }
    assert Kids(db.pages, db.pages[id].workspace, Some(id), None) == {};
    ChildrenAre(db.pages, db.pages[id].workspace, Some(id), None, []);
  }

  lemma KindKept(db: Db, step: Step, id: Id)
    requires Inv(db.pages) && id in db.pages && !(step.Patch? && step.page == id)
    ensures id in Next(db, step).pages && Next(db, step).pages[id].kind == db.pages[id].kind
  {
    CommitShape(db, step);
    var (next, outcome) := Apply(db, step);
    if outcome.Done? && step.Restore? && id != step.page {
      assert RestoredRow(db.pages, next.pages, step.page, id);
    }
  }

  /** Some request of the run changes the value of the field. */
  ghost predicate ChangedDuring(db: Db, steps: seq<Step>, id: Id, field: Field)
    requires Inv(db.pages)
    decreases |steps|
  {
    && steps != []
    && id in db.pages
    && var next := Next(db, steps[0]);
       && id in next.pages
       && (StateOf(next.pages[id]).Get(field) != StateOf(db.pages[id]).Get(field) || ChangedDuring(next, steps[1..],
           id, field))
  }

  lemma {:induction false} RunTouches(db: Db, steps: seq<Step>, id: Id, f: Field, base: int)
    requires Inv(db.pages) && id in db.pages && base <= db.pages[id].version && f in TRACKED
    ensures Untouched(Run(db, steps).log, id, f, base)
       <==> Untouched(db.log, id, f, base) && !ChangedDuring(db, steps, id, f)
    decreases |steps|
  {
    if steps != [] {
      var next := Next(db, steps[0]);
      NextLogged(db, steps[0]);
      TrackedAreFields();
      H.StepTouches(View(db), View(next), FIELDS, TRACKED, id, f, base);
      assert View(next).rows[id].get(f) == StateOf(next.pages[id]).Get(f);
      RunTouches(next, steps[1..], id, f, base);
    }
  }

  /** The conflicts found are exactly the sent fields that some request changed since the version the edit
      was made on, even if they are back at the value they had. */
  lemma ConflictsAreChanges(seen: Db, steps: seq<Step>, id: Id, change: ChangeSet)
    requires Inv(seen.pages) && H.Bounded(View(seen)) && id in seen.pages
    ensures var found := Conflicts(Run(seen, steps).log, id, seen.pages[id].version, SentFields(change));
            forall f :: f in found <==> f in SentFields(change) && ChangedDuring(seen, steps, id, f)
  {
    SentAreTracked(change);
    var base := seen.pages[id].version;
    var log := Run(seen, steps).log;
    forall f | f in SentFields(change) ensures Untouched(log, id, f, base) <==> !ChangedDuring(seen, steps, id, f) {
      RunTouches(seen, steps, id, f, base);
      assert Untouched(View(seen).log, id, f, base);
    }
  }

  /** The history does not replay the time of a delete: the descendants that go to the trash get a new
      version and no row. */
  lemma DescendantsUnlogged(db: Db, workspace: Id, actor: Id, root: Id, at: Time, x: Id)
    requires Inv(db.pages) && H.Bounded(View(db)) && LiveIn(db.pages, workspace, root)
    requires x in Taken(db.pages, root) && x != root
    ensures var next := DeleteStep(db, workspace, actor, root, at).0;
            && x in next.pages && next.pages[x].version == db.pages[x].version + 1
            && next.pages[x].deletedAt != db.pages[x].deletedAt
            && Untouched(next.log, x, DeletedAt, db.pages[x].version)
  {
    DeleteShape(db, workspace, actor, root, at);
    var current := db.pages[root];
    var next := StateOf(current).(deletedAt := Some(at), deletedRoot := Some(root));
    assert Untouched(View(db).log, x, DeletedAt, db.pages[x].version);
    H.RowsOfAnother(root, current.version + 1, actor, PageDiff(StateOf(current), next), x, DeletedAt,
        db.pages[x].version);
  }
}
