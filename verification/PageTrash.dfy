/** The trash: what a delete takes stays together and untouched, and a restore brings back exactly that. */
module PageTrash {
  import opened Base
  import opened Forest
  import opened PageSteps
  import opened PageTree

  /** Every row trashed with `root` stays there, as it was. */
  ghost predicate KeepsTrash(t: Table, u: Table, root: Id) {
    TrashedWith(u, root) == TrashedWith(t, root) && forall x | x in TrashedWith(t, root) :: u[x] == t[x]
  }

  lemma CommittedKeepsTrash(t: Table, u: Table, step: Step, page: Id, root: Id)
    requires Inv(t) && Committed(t, u, step, page)
    requires root in t && t[root].deletedRoot == Some(root) && !(step.Restore? && step.page == root)
    ensures KeepsTrash(t, u, root)
  {
    forall x | x in t ensures x in u && (x in TrashedWith(t, root) ==> u[x] == t[x]) {
      assert Fits(t, x);
    }
    assert Fits(t, root);
    forall x | x in TrashedWith(u, root) ensures x in TrashedWith(t, root) {
      if x in t { assert Fits(t, x); }
    }
  }

  /** A request other than the restore of `root` leaves its trash as it was. */
  lemma NextKeepsTrash(db: Db, step: Step, root: Id)
    requires Inv(db.pages) && root in db.pages && db.pages[root].deletedRoot == Some(root)
    requires !(step.Restore? && step.page == root)
    ensures KeepsTrash(db.pages, Next(db, step).pages, root)
  {
    CommitShape(db, step);
    var (next, outcome) := Apply(db, step);
    if outcome.Done? {
      CommittedKeepsTrash(db.pages, next.pages, step, outcome.page, root);
    }
  }

  lemma {:induction false} RunKeepsTrash(db: Db, steps: seq<Step>, root: Id)
    requires Inv(db.pages) && root in db.pages && db.pages[root].deletedRoot == Some(root)
    requires forall step | step in steps :: !(step.Restore? && step.page == root)
    ensures KeepsTrash(db.pages, Run(db, steps).pages, root)
    decreases |steps|
  {
    if steps != [] {
      assert steps[0] in steps;
      NextKeepsTrash(db, steps[0], root);
      assert root in TrashedWith(db.pages, root);
      RunKeepsTrash(Next(db, steps[0]), steps[1..], root);
    }
  }

  lemma TrashedTakes(t: Table, u: Table, root: Id, at: Time)
    requires Inv(t) && Trashed(t, u, root, at)
    ensures TrashedWith(u, root) == Taken(t, root) && root in Taken(t, root)
    ensures LivePages(u) == LivePages(t) - Taken(t, root)
  {
    assert PathOf(t, root)[0] == root;
    assert Fits(t, root);
    forall x | x in t ensures t[x].deletedRoot != Some(root) {
      if t[x].deletedRoot == Some(root) { TrashRootAbove(t, x); }
    }
  }

  /** Deleting a page puts it and its live descendants, and nothing else, in its trash. */
  lemma DeleteTakes(db: Db, workspace: Id, actor: Id, root: Id, at: Time)
    requires Inv(db.pages) && LiveIn(db.pages, workspace, root)
    ensures var (next, outcome) := DeleteStep(db, workspace, actor, root, at);
            && outcome == Done(root)
            && TrashedWith(next.pages, root) == Taken(db.pages, root)
            && LivePages(next.pages) == LivePages(db.pages) - Taken(db.pages, root)
            && Trashed(db.pages, next.pages, root, at)
  {
    DeleteShape(db, workspace, actor, root, at);
    TrashedTakes(db.pages, DeleteStep(db, workspace, actor, root, at).0.pages, root, at);
  }

  lemma RestoredReturns(t: Table, u: Table, root: Id)
    requires Inv(t) && Restored(t, u, root)
    ensures LivePages(u) == LivePages(t) + TrashedWith(t, root)
    ensures TrashedWith(u, root) == {}
    ensures forall q | q != root :: TrashedWith(u, q) == TrashedWith(t, q)
  {
    forall x | x in t
      ensures x in u
      ensures u[x].Live() <==> t[x].Live() || x in TrashedWith(t, root)
      ensures u[x].deletedRoot == if x in TrashedWith(t, root) then None else t[x].deletedRoot
    {
      assert Fits(t, x);
      if x != root { assert RestoredRow(t, u, root, x); }
    }
  }

  /** Restoring a page makes live the pages trashed with it, and no other. */
  lemma RestoreReturns(db: Db, workspace: Id, actor: Id, root: Id)
    requires Inv(db.pages) && root in db.pages && db.pages[root].workspace == workspace
    requires db.pages[root].deletedRoot == Some(root)
    ensures var (next, outcome) := RestoreStep(db, workspace, actor, root);
            && outcome == Done(root)
            && LivePages(next.pages) == LivePages(db.pages) + TrashedWith(db.pages, root)
            && (forall q | q != root :: TrashedWith(next.pages, q) == TrashedWith(db.pages, q))
            && Restored(db.pages, next.pages, root)
  {
    RestoreShape(db, workspace, actor, root);
    RestoredReturns(db.pages, RestoreStep(db, workspace, actor, root).0.pages, root);
  }

  /** `v` is `u` with the pages that were deleted with `root` in `t` live again: each as it was in `t`
      but for its version; `root` keeps its parent unless that is in the trash in `u`. */
  ghost predicate BroughtBack(t: Table, u: Table, v: Table, root: Id)
    requires Rooted(t) && root in t
  {
    && LivePages(v) == LivePages(u) + Taken(t, root)
    && LivePages(u) !! Taken(t, root)
    && (forall x | x in Taken(t, root) && x != root :: v[x] == t[x].(version := t[x].version + 2))
    && root in v
    && v[root] == t[root].(parent := if ParentAlive(u, t[root]) then t[root].parent else None,
                           position := v[root].position,
                           version := t[root].version + 2)
    && forall q | q != root :: TrashedWith(v, q) == TrashedWith(u, q)
  }

  lemma KeptTrashComesBack(t: Table, d: Table, u: Table, v: Table, root: Id, at: Time)
    requires Inv(t) && Inv(d) && Inv(u)
    requires Trashed(t, d, root, at) && KeepsTrash(d, u, root)
    requires Restored(u, v, root)
    ensures BroughtBack(t, u, v, root)
  {
    TrashedTakes(t, d, root, at);
    RestoredReturns(u, v, root);
    forall x | x in Taken(t, root)
      ensures x !in LivePages(u) && u[x] == t[x].(deletedAt := Some(at), deletedRoot := Some(root),
          version := t[x].version + 1)
      ensures t[x].Live() && t[x].deletedRoot.None?
    {
      assert x in TrashedWith(d, root);
      assert Fits(t, x);
      if x != root { assert RestoredRow(u, v, root, x); }
    }
    assert root in Taken(t, root);
  }

  /** Whatever requests run in between, restoring a deleted page makes live exactly the pages its delete
      took, each as it was. Pages in another trash stay there. */
  lemma RestoreUndoesDelete(db: Db, workspace: Id, deleter: Id, restorer: Id, root: Id, at: Time, between: seq<Step>)
    requires Inv(db.pages) && LiveIn(db.pages, workspace, root)
    requires forall step | step in between :: !(step.Restore? && step.page == root)
    ensures var before := Run(Next(db, Delete(workspace, deleter, root, at)), between);
            var (after, outcome) := RestoreStep(before, workspace, restorer, root);
            outcome == Done(root) && BroughtBack(db.pages, before.pages, after.pages, root)
  {
    var deleted := Next(db, Delete(workspace, deleter, root, at));
    DeleteTakes(db, workspace, deleter, root, at);
    assert root in TrashedWith(deleted.pages, root) by { TrashedTakes(db.pages, deleted.pages, root, at); }
    RunKeepsTrash(deleted, between, root);
    var before := Run(deleted, between);
    assert root in TrashedWith(before.pages, root);
    RestoreShape(before, workspace, restorer, root);
    var after := RestoreStep(before, workspace, restorer, root).0;
    KeptTrashComesBack(db.pages, deleted.pages, before.pages, after.pages, root, at);
  }

  /** Every page is as it was, but for the versions of those deleted and restored. */
  ghost predicate Undone(t: Table, v: Table, root: Id)
    requires Rooted(t)
  {
    && v.Keys == t.Keys
    && forall x | x in t :: v[x] == if x in Taken(t, root) then t[x].(version := t[x].version + 2) else t[x]
  }

  lemma TrashedThenRestored(t: Table, d: Table, v: Table, root: Id, at: Time)
    requires Inv(t) && Inv(d) && Trashed(t, d, root, at) && Restored(d, v, root)
    ensures Undone(t, v, root)
  {
    TrashedTakes(t, d, root, at);
    assert Fits(t, root);
    if t[root].parent.Some? { ParentNotUnder(t, root); }
    assert ParentAlive(d, d[root]);
    forall x | x in t
      ensures v[x] == if x in Taken(t, root) then t[x].(version := t[x].version + 2) else t[x]
    {
      assert Fits(t, x);
      assert x in TrashedWith(d, root) <==> x in Taken(t, root);
      if x != root { assert RestoredRow(d, v, root, x); }
    }
  }

  lemma RestoreAfterDelete(db: Db, deleted: Db, workspace: Id, restorer: Id, root: Id, at: Time)
    requires Inv(db.pages) && Inv(deleted.pages) && Trashed(db.pages, deleted.pages, root, at)
    requires db.pages[root].workspace == workspace
    ensures var (after, outcome) := RestoreStep(deleted, workspace, restorer, root);
            outcome == Done(root) && Undone(db.pages, after.pages, root)
  {
    TrashedTakes(db.pages, deleted.pages, root, at);
    RestoreShape(deleted, workspace, restorer, root);
    TrashedThenRestored(db.pages, deleted.pages, RestoreStep(deleted, workspace, restorer, root).0.pages, root, at);
  }

  /** A delete undone at once gives back the same pages, parents and keys. */
  lemma DeleteThenRestore(db: Db, workspace: Id, deleter: Id, restorer: Id, root: Id, at: Time)
    requires Inv(db.pages) && LiveIn(db.pages, workspace, root)
    ensures var deleted := Next(db, Delete(workspace, deleter, root, at));
            var (after, outcome) := RestoreStep(deleted, workspace, restorer, root);
            outcome == Done(root) && Undone(db.pages, after.pages, root)
  {
    DeleteTakes(db, workspace, deleter, root, at);
    RestoreAfterDelete(db, Next(db, Delete(workspace, deleter, root, at)), workspace, restorer, root, at);
  }
}
