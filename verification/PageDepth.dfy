/** The limit on depth: create, move, patch and delete keep it; a restore keeps it exactly when the
    subtree that comes back fits under its parent. */
module PageDepth {
  import opened Base
  import opened Keys
  import opened Forest
  import opened PageSteps
  import opened PageTree

  /** Every live page is at depth at most 12. */
  ghost predicate Shallow(t: Table)
    requires Rooted(t)
  {
    forall x | x in t && t[x].Live() :: Depth(t, x) <= MAX_DEPTH
  }

  ghost function ParentDepth(t: Table, parent: Option<Id>): nat
    requires Rooted(t) && (parent.Some? ==> parent.value in t)
  {
    if parent.Some? then Depth(t, parent.value) else 0
  }

  /** A page under a reparented one ends up at the new parent's depth plus its level in the subtree. */
  lemma ReparentDepth(t: Table, u: Table, id: Id, x: Id)
    requires Rooted(t) && id in t && u.Keys == t.Keys && x in t
    requires forall y | y in t && y != id :: u[y].parent == t[y].parent
    requires u[id].parent.Some? ==> u[id].parent.value in t && !Under(t, id, u[id].parent.value)
    ensures Rooted(u)
    ensures Depth(u, x) == if Under(t, id, x) then ParentDepth(t, u[id].parent) + Level(t, id, x) else Depth(t, x)
  {
    Reparent(t, u, id);
    assert PathOf(u, x) == if Under(t, id, x) then Rerouted(t, u, id, x) else PathOf(t, x);
  }

  /** After a move each page of the subtree is at the new parent's depth plus its level, and every other
      page is at the depth it was. */
  lemma MovedDepth(t: Table, u: Table, id: Id, parent: Option<Id>, x: Id)
    requires Rooted(t) && Rooted(u) && Moved(t, u, id, parent) && x in t
    ensures Depth(u, x) == if Under(t, id, x) then ParentDepth(t, parent) + Level(t, id, x) else Depth(t, x)
  {
    ReparentDepth(t, u, id, x);
  }

  /** So checking the height of the live subtree is enough, and refuses no move that fits. */
  lemma MovedShallow(t: Table, u: Table, id: Id, parent: Option<Id>)
    requires Inv(t) && Rooted(u) && Moved(t, u, id, parent) && Shallow(t)
    ensures Shallow(u) <==> ParentDepth(t, parent) + Height(t, id) <= MAX_DEPTH
  {
    forall x | x in t
      ensures Depth(u, x) == if Under(t, id, x) then ParentDepth(t, parent) + Level(t, id, x) else Depth(t, x)
    {
      MovedDepth(t, u, id, parent, x);
    }
    DepthsDecide(t, u, id, parent);
  }

  lemma DepthsDecide(t: Table, u: Table, id: Id, parent: Option<Id>)
    requires Inv(t) && Rooted(u) && Shallow(t) && u.Keys == t.Keys && id in t && t[id].Live()
    requires parent.Some? ==> parent.value in t
    requires forall x | x in t :: u[x].Live() == t[x].Live()
    requires forall x | x in t ::
               Depth(u, x) == if Under(t, id, x) then ParentDepth(t, parent) + Level(t, id, x) else Depth(t, x)
    ensures Shallow(u) <==> ParentDepth(t, parent) + Height(t, id) <= MAX_DEPTH
  {
    if ParentDepth(t, parent) + Height(t, id) <= MAX_DEPTH {
      forall x | x in u && u[x].Live() ensures Depth(u, x) <= MAX_DEPTH {
        assert Under(t, id, x) ==> x in Taken(t, id);
      }
    } else {
      var x :| x in Taken(t, id) && Level(t, id, x) == Height(t, id);
      assert u[x].Live() && Depth(u, x) > MAX_DEPTH;
    }
  }

  /** A move is refused exactly when the new parent is not a live page of the workspace, or the pages would
      have a cycle, or a live page would be deeper than 12. */
  lemma MoveRefusedExactly(t: Table, workspace: Id, id: Id, parent: Option<Id>)
    requires Inv(t) && Shallow(t) && LiveIn(t, workspace, id)
    ensures var u := t[id := t[id].(parent := parent)];
            MoveRefusal(t, workspace, id, parent).None?
            <==> (parent.Some? ==> LiveIn(t, workspace, parent.value)) && Rooted(u) && Shallow(u)
  {
    var u := t[id := t[id].(parent := parent)];
    if parent.Some? && !LiveIn(t, workspace, parent.value) {
    } else if parent.Some? && Under(t, id, parent.value) {
      CycleUnrooted(t, u, id);
    } else {
      forall x | x in t
        ensures Rooted(u)
        ensures Depth(u, x) == if Under(t, id, x) then ParentDepth(t, parent) + Level(t, id, x) else Depth(t, x)
      {
        ReparentDepth(t, u, id, x);
      }
      DepthsDecide(t, u, id, parent);
    }
  }

  lemma CreatedDepth(t: Table, u: Table, id: Id, parent: Option<Id>)
    requires Inv(t) && Inv(u) && Created(t, u, id, parent) && Shallow(t)
    requires ParentDepth(t, parent) + 1 <= MAX_DEPTH
    ensures Depth(u, id) == ParentDepth(t, parent) + 1 && Shallow(u)
  {
    CreatedPaths(t, u, id, parent);
    forall x | x in u && u[x].Live() ensures Depth(u, x) <= MAX_DEPTH {
      if x != id { assert PathOf(u, x) == PathOf(t, x); }
    }
  }

  lemma SamePathsDepth(t: Table, u: Table)
    requires Rooted(t) && Rooted(u) && t.Keys == u.Keys && Shallow(t)
    requires forall x | x in t :: u[x].parent == t[x].parent && (u[x].Live() ==> t[x].Live())
    ensures Shallow(u)
  {
    SameParents(t, u);
    forall x | x in u && u[x].Live() ensures Depth(u, x) <= MAX_DEPTH {
      assert PathOf(u, x) == PathOf(t, x);
    }
  }

  lemma CreateKeepsShallow(db: Db, workspace: Id, actor: Id, request: CreateRequest, newId: Id, generated: seq<string>)
    requires Inv(db.pages) && Shallow(db.pages)
    ensures Rooted(CreateStep(db, workspace, actor, request, newId, generated).0.pages)
    ensures Shallow(CreateStep(db, workspace, actor, request, newId, generated).0.pages)
  {
    CreateShape(db, workspace, actor, request, newId, generated);
    var (next, outcome) := CreateStep(db, workspace, actor, request, newId, generated);
    if outcome.Done? {
      CreatedKeepsInv(db.pages, next.pages, outcome.page, request.parent);
      CreatedDepth(db.pages, next.pages, outcome.page, request.parent);
    }
  }

  lemma MoveKeepsShallow(db: Db, workspace: Id, actor: Id, id: Id, parent: Option<Id>, index: nat)
    requires Inv(db.pages) && Shallow(db.pages)
    ensures Rooted(MoveStep(db, workspace, actor, id, parent, index).0.pages)
    ensures Shallow(MoveStep(db, workspace, actor, id, parent, index).0.pages)
  {
    MoveShape(db, workspace, actor, id, parent, index);
    var (next, outcome) := MoveStep(db, workspace, actor, id, parent, index);
    if outcome.Done? {
      MovedKeepsInv(db.pages, next.pages, id, parent);
      MovedShallow(db.pages, next.pages, id, parent);
    }
  }

  /** Every request but a restore keeps every live page at depth at most 12. */
  lemma NextKeepsShallow(db: Db, step: Step)
    requires Inv(db.pages) && Shallow(db.pages) && !step.Restore?
    ensures Shallow(Next(db, step).pages)
  {
    match step
    case Create(workspace, actor, request, newId, generated) =>
      CreateKeepsShallow(db, workspace, actor, request, newId, generated);
    case Move(workspace, actor, page, parent, index) =>
      MoveKeepsShallow(db, workspace, actor, page, parent, index);
    case Patch(_, _, _, _, _, _) =>
      CommitShape(db, step);
      if Apply(db, step).1.Done? { SamePathsDepth(db.pages, Next(db, step).pages); }
    case Delete(_, _, _, _) =>
      CommitShape(db, step);
      if Apply(db, step).1.Done? { SamePathsDepth(db.pages, Next(db, step).pages); }
  }

  /** Over any run without a restore the tree stays at most 12 levels deep. */
  lemma {:induction false} RunKeepsShallow(db: Db, steps: seq<Step>)
    requires Inv(db.pages) && Shallow(db.pages)
    requires forall step | step in steps :: !step.Restore?
    ensures Shallow(Run(db, steps).pages)
    decreases |steps|
  {
    if steps != [] {
      assert steps[0] in steps;
      NextKeepsShallow(db, steps[0]);
      RunKeepsShallow(Next(db, steps[0]), steps[1..]);
    }
  }

  // ---- Restore ----

  /** The subtree in the trash with `root` fits under the parent it comes back to. */
  ghost predicate FitsUnder(t: Table, root: Id)
    requires Inv(t) && root in t
  {
    forall x | x in TrashedWith(t, root) ::
      Under(t, root, x) && ParentDepth(t, RestoredParent(t, root)) + Level(t, root, x) <= MAX_DEPTH
  }

  lemma RestoredDepth(t: Table, u: Table, root: Id)
    requires Inv(t) && Inv(u) && Restored(t, u, root) && Shallow(t)
    ensures Shallow(u) <==> FitsUnder(t, root)
  {
    RestoredColumns(t, u, root);
    if t[root].parent.Some? { ParentNotUnder(t, root); }
    forall x | x in t
      ensures Depth(u, x) == if Under(t, root, x) then ParentDepth(t, u[root].parent) + Level(t, root, x)
          else Depth(t, x)
      ensures u[x].Live() <==> t[x].Live() || x in TrashedWith(t, root)
      ensures x in TrashedWith(t, root) ==> Under(t, root, x)
      ensures t[x].Live() ==> !Under(t, root, x)
    {
      ReparentDepth(t, u, root, x);
      assert Fits(t, x) && Fits(t, root);
      if x != root { assert RestoredRow(t, u, root, x); }
      if x in TrashedWith(t, root) { TrashRootAbove(t, x); }
      if t[x].Live() { LivePath(t, x); }
    }
    if Shallow(u) {
      forall x | x in TrashedWith(t, root)
        ensures Under(t, root, x) && ParentDepth(t, RestoredParent(t, root)) + Level(t, root, x) <= MAX_DEPTH
      {
        assert Depth(u, x) <= MAX_DEPTH;
      }
    }
  }

  /** A restore does not check depth: it keeps the limit exactly when the subtree that comes back fits
      under the parent it comes back to. */
  lemma RestoreKeepsShallow(db: Db, actor: Id, root: Id)
    requires Inv(db.pages) && Shallow(db.pages)
    requires root in db.pages && db.pages[root].deletedRoot == Some(root)
    ensures Inv(RestoreRoot(db, actor, root).0.pages)
    ensures Shallow(RestoreRoot(db, actor, root).0.pages) <==> FitsUnder(db.pages, root)
  {
    RestoreRootShape(db, actor, root);
    RestoredKeepsInv(db.pages, RestoreRoot(db, actor, root).0.pages, root);
    RestoredDepth(db.pages, RestoreRoot(db, actor, root).0.pages, root);
  }

  /** The same of the request, for the root of a trash of the workspace. */
  lemma RestoreRequestKeepsShallow(db: Db, step: Step)
    requires Inv(db.pages) && Shallow(db.pages) && step.Restore?
    requires step.page in db.pages && db.pages[step.page].workspace == step.workspace
    requires db.pages[step.page].deletedRoot == Some(step.page)
    ensures Apply(db, step).1 == Done(step.page)
    ensures Shallow(Next(db, step).pages) <==> FitsUnder(db.pages, step.page)
  {
    CommitShape(db, step);
    RestoreAccepted(db, step.workspace, step.actor, step.page);
    RestoredDepth(db.pages, Next(db, step).pages, step.page);
  }
}
