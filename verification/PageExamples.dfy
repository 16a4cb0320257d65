/** Inputs on which the service does less than its requests ask for: a move that is lost, and a restore
    below the depth limit. */
module PageExamples {
  import opened Base
  import opened Keys
  import opened Forest
  import opened PageSteps
  import opened PageTree
  import opened PageOrder
  import opened PageDepth

  // ---- A lost move ----

  function RootRequest(id: Id, shortId: string): CreateRequest {
    CreateRequest(Some(id), Some(shortId), Document, None, "", None)
  }

  function RootPage(shortId: string, position: Key, version: nat): Page {
    Page(0, None, position, Document, "", None, shortId, 0, version, None, None)
  }

  /** Creates a page at the root of workspace 0. */
  function CreateRoot(id: Id, shortId: string): Step {
    Create(0, 0, RootRequest(id, shortId), 0, [])
  }

  lemma NextCreateRoot(db: Db, id: Id, shortId: string, siblings: seq<Id>, key: Key)
    requires Inv(db.pages) && id !in db.pages && !ShortIdUsed(db.pages, shortId)
    requires Lists(db.pages, siblings, Kids(db.pages, 0, None, None))
    requires Between(KeyAt(db.pages, siblings, |siblings| - 1), None) == Some(key)
    ensures Next(db, CreateRoot(id, shortId)) == Db(db.pages[id := RootPage(shortId, key, 1)], db.log)
  {
    ChildrenAre(db.pages, 0, None, None, siblings);
  }

  /** One page deleted and restored, another created meanwhile: both end up with the same key. */
  function LostMoveRun(): seq<Step> {
    [CreateRoot(1, "a"), CreateRoot(2, "b"), Delete(0, 0, 2, 0), CreateRoot(3, "c"), Restore(0, 0, 2)]
  }

  function RootTable(second: Page, third: bool): Table {
    var two := map[1 := RootPage("a", [128], 1), 2 := second];
    if third then two[3 := RootPage("c", [129], 1)] else two
  }

  lemma RunAfter(db: Db, steps: seq<Step>)
    requires Inv(db.pages) && steps != []
    ensures Run(db, steps) == Run(Next(db, steps[0]), steps[1..])
  {
  }

  lemma RootPath(t: Table, id: Id)
    requires Rooted(t) && id in t && t[id].parent.None?
    ensures PathOf(t, id) == [id]
  {
    PathStep(t, id);
  }

  lemma TwoCreated()
    ensures Inv(map[])
    ensures var two := Next(Next(Db(map[], []), CreateRoot(1, "a")), CreateRoot(2, "b"));
            two == Db(RootTable(RootPage("b", [129], 1), false), [])
  {
    var empty := Db(map[], []);
    NextCreateRoot(empty, 1, "a", [], [128]);
    var one := Next(empty, CreateRoot(1, "a"));
    assert one.pages == map[1 := RootPage("a", [128], 1)];
    assert "a" != "b";
    NextCreateRoot(one, 2, "b", [1], [129]);
  }

  lemma SecondTrashed(t: Table, u: Table)
    requires Rooted(t) && t == RootTable(RootPage("b", [129], 1), false) && Trashed(t, u, 2, 0)
    ensures u == RootTable(RootPage("b", [129], 2).(deletedAt := Some(0), deletedRoot := Some(2)), false)
  {
    RootPath(t, 1);
    RootPath(t, 2);
    assert Taken(t, 2) == {2};
  }

  lemma SecondDeleted(db: Db)
    requires Inv(db.pages) && db.pages == RootTable(RootPage("b", [129], 1), false)
    ensures Next(db, Delete(0, 0, 2, 0)).pages
         == RootTable(RootPage("b", [129], 2).(deletedAt := Some(0), deletedRoot := Some(2)), false)
  {
    DeleteShape(db, 0, 0, 2, 0);
    SecondTrashed(db.pages, Next(db, Delete(0, 0, 2, 0)).pages);
  }

  lemma ThirdCreated(db: Db)
    requires Inv(db.pages)
    requires db.pages == RootTable(RootPage("b", [129], 2).(deletedAt := Some(0), deletedRoot := Some(2)), false)
    ensures Next(db, CreateRoot(3, "c")).pages
         == RootTable(RootPage("b", [129], 2).(deletedAt := Some(0), deletedRoot := Some(2)), true)
  {
    assert "c" != "a" && "c" != "b";
    NextCreateRoot(db, 3, "c", [1], [129]);
  }

  lemma SecondBack(t: Table, u: Table)
    requires t == RootTable(RootPage("b", [129], 2).(deletedAt := Some(0), deletedRoot := Some(2)), true)
    requires Restored(t, u, 2)
    ensures u == RootTable(RootPage("b", [129], 3), true)
  {
    assert RestoredRow(t, u, 2, 1) && RestoredRow(t, u, 2, 3);
    assert ParentAlive(t, t[2]);
  }

  lemma NextRestore(db: Db, step: Step)
    requires Inv(db.pages) && step.Restore? && step.page in db.pages
    requires db.pages[step.page].workspace == step.workspace && db.pages[step.page].deletedRoot == Some(step.page)
    ensures Restored(db.pages, Next(db, step).pages, step.page)
  {
    CommitShape(db, step);
    RestoreAccepted(db, step.workspace, step.actor, step.page);
  }

  lemma SecondRestored(db: Db)
    requires Inv(db.pages)
    requires db.pages == RootTable(RootPage("b", [129], 2).(deletedAt := Some(0), deletedRoot := Some(2)), true)
    ensures Next(db, Restore(0, 0, 2)).pages == RootTable(RootPage("b", [129], 3), true)
  {
    NextRestore(db, Restore(0, 0, 2));
    SecondBack(db.pages, Next(db, Restore(0, 0, 2)).pages);
  }

  lemma RunOfFive(db: Db, a: Step, b: Step, c: Step, d: Step, e: Step)
    requires Inv(db.pages)
    ensures Run(db, [a, b, c, d, e]) == Next(Next(Next(Next(Next(db, a), b), c), d), e)
  {
    RunAfter(db, [a, b, c, d, e]);
    RunAfter(Next(db, a), [b, c, d, e]);
    RunAfter(Next(Next(db, a), b), [c, d, e]);
    RunAfter(Next(Next(Next(db, a), b), c), [d, e]);
    RunAfter(Next(Next(Next(Next(db, a), b), c), d), [e]);
  }

  lemma LostMoveReached()
    ensures Inv(map[])
    ensures Run(Db(map[], []), LostMoveRun()).pages == RootTable(RootPage("b", [129], 3), true)
  {
    TwoCreated();
    var empty, run := Db(map[], []), LostMoveRun();
    RunOfFive(empty, run[0], run[1], run[2], run[3], run[4]);
    var two := Next(Next(empty, run[0]), run[1]);
    SecondDeleted(two);
    ThirdCreated(Next(two, run[2]));
    SecondRestored(Next(Next(two, run[2]), run[3]));
  }

  /** From an empty instance five requests lead to a move that is answered as done and is lost: page 1,
      asked to go between pages 2 and 3, stays before both. */
  lemma LostMoveHappens()
    ensures Inv(map[])
    ensures var db := Run(Db(map[], []), LostMoveRun());
            && LiveIn(db.pages, 0, 1)
            && LostMove(db.pages, 0, 1, None, 1)
            && MoveStep(db, 0, 0, 1, None, 1) == (db, Unchanged(1))
  {
    LostMoveReached();
    LostIn(Run(Db(map[], []), LostMoveRun()));
  }

  lemma NoRoomBetween()
    ensures Spread(3)[1] == [128] && Between(Some([129]), Some([129])).None?
  {
    assert Mid([], None) == Some([128]);
    assert Bisect([], Some([128]), 1) == [Mid([], Some([128])).value];
  }

  lemma LostInTable(t: Table)
    requires t == RootTable(RootPage("b", [129], 3), true)
    ensures LostMove(t, 0, 1, None, 1)
  {
    NoRoomBetween();
    ChildrenAre(t, 0, None, Some(1), [2, 3]);
    assert Rank(t, 1, [2, 3]) == 0;
  }

  lemma HeightOne(t: Table)
    requires Inv(t) && t == RootTable(RootPage("b", [129], 3), true)
    ensures MoveRefusal(t, 0, 1, None).None?
  {
    RootPath(t, 1);
    RootPath(t, 2);
    RootPath(t, 3);
    assert Taken(t, 1) == {1};
    var height := Height(t, 1);
    assert Level(t, 1, 1) == 1;
  }

  lemma LostIn(db: Db)
    requires Inv(db.pages) && db.pages == RootTable(RootPage("b", [129], 3), true)
    ensures LostMove(db.pages, 0, 1, None, 1)
    ensures MoveStep(db, 0, 0, 1, None, 1) == (db, Unchanged(1))
  {
    HeightOne(db.pages);
    LostInTable(db.pages);
    MovePlaces(db, 0, 0, 1, None, 1);
  }

  // ---- A restore below the limit ----

  /** Pages 0 to 10 each under the one before, 11 at the root, 12 under 11. */
  function ParentOf(i: nat): Option<Id> {
    if i == 0 || i == 11 then None else Some(i - 1)
  }

  function DepthOf(i: nat): nat {
    if i <= 10 then i + 1 else i - 10
  }

  function CreateNext(i: nat): Step {
    Create(0, 0, CreateRequest(Some(i), Some(seq(i, _ => 'a')), Document, ParentOf(i), "", None), 0, [])
  }

  function CreateAll(n: nat): seq<Step> {
    if n == 0 then [] else CreateAll(n - 1) + [CreateNext(n - 1)]
  }

  /** The leaf 12 is deleted, and then its parent goes to the bottom of the chain. */
  function TooDeepRun(): seq<Step> {
    CreateAll(13) + [Delete(0, 0, 12, 0)] + [Move(0, 0, 11, Some(10), 0)]
  }

  lemma {:induction false} RunSnoc(db: Db, steps: seq<Step>, last: Step)
    requires Inv(db.pages)
    ensures Run(db, steps + [last]) == Next(Run(db, steps), last)
    decreases |steps|
  {
    if steps == [] {
      RunAfter(db, [last]);
      assert [] + [last] == [last] && [last][1..] == [];
    } else {
      assert (steps + [last])[1..] == steps[1..] + [last];
      RunSnoc(Next(db, steps[0]), steps[1..], last);
    }
  }

  /** The first `n` of these pages, live. */
  ghost predicate Grown(t: Table, n: nat) {
    && (forall i: Id :: i in t <==> i < n)
    && forall i | i in t :: t[i].workspace == 0 && t[i].Live() && t[i].parent == ParentOf(i) && |t[i].shortId| == i
  }

  lemma {:induction false} GrownDepth(t: Table, n: nat, i: nat)
    requires Rooted(t) && Grown(t, n) && i < n <= 13
    ensures Depth(t, i) == DepthOf(i)
  {
    PathStep(t, i);
    if ParentOf(i).Some? { GrownDepth(t, n, i - 1); }
  }

  /** A create that nothing refuses. */
  lemma CreatedNext(db: Db, step: Step, id: Id, shortId: string)
    requires Inv(db.pages) && step.Create? && step.request.id == Some(id) && step.request.shortId == Some(shortId)
    requires id !in db.pages && !ShortIdUsed(db.pages, shortId)
    requires CreateRefusal(db.pages, step.workspace, step.request.parent).None?
    ensures var placed := Place(db.pages, step.workspace, step.request.parent, None, None);
            Next(db, step).pages
            == placed.pages[id := NewPage(step.workspace, step.actor, step.request, placed.key, shortId)]
  {
  }

  lemma GrownMore(t: Table, u: Table, n: nat, page: Page)
    requires Grown(t, n) && RekeyedTable(t, u)
    requires page.workspace == 0 && page.Live() && page.parent == ParentOf(n) && |page.shortId| == n
    ensures Grown(u[n := page], n + 1)
  {
    var v := u[n := page];
    forall i | i in v
      ensures v[i].workspace == 0 && v[i].Live() && v[i].parent == ParentOf(i) && |v[i].shortId| == i
    {
      if i != n { assert Rekeyed(t[i], u[i]); }
    }
  }

  lemma MayGrow(t: Table, n: nat)
    requires Inv(t) && Grown(t, n) && n < 13
    ensures CreateRefusal(t, 0, ParentOf(n)).None? && !ShortIdUsed(t, seq(n, _ => 'a'))
  {
    if ParentOf(n).Some? { GrownDepth(t, n, n - 1); }
  }

  lemma NextGrows(db: Db, n: nat, step: Step)
    requires Inv(db.pages) && Grown(db.pages, n) && n < 13 && step == CreateNext(n)
    ensures Grown(Next(db, step).pages, n + 1)
  {
    var shortId := seq(n, _ => 'a');
    MayGrow(db.pages, n);
    CreatedNext(db, step, n, shortId);
    PlaceRekeys(db.pages, 0, ParentOf(n), None, None);
    var placed := Place(db.pages, 0, ParentOf(n), None, None);
    GrownMore(db.pages, placed.pages, n, NewPage(0, 0, step.request, placed.key, shortId));
  }

  lemma OneMoreGrown(db: Db, n: nat, steps: seq<Step>, step: Step)
    requires Inv(db.pages) && Grown(Run(db, steps).pages, n) && n < 13 && step == CreateNext(n)
    ensures Grown(Run(db, steps + [step]).pages, n + 1)
  {
    RunSnoc(db, steps, step);
    NextGrows(Run(db, steps), n, step);
  }

  lemma {:induction false} AllGrown(db: Db, n: nat)
    requires n <= 13 && Inv(db.pages) && db.pages == map[]
    ensures Grown(Run(db, CreateAll(n)).pages, n)
  {
    if n > 0 {
      AllGrown(db, n - 1);
      OneMoreGrown(db, n - 1, CreateAll(n - 1), CreateNext(n - 1));
    } else {
      assert Run(db, []) == db;
    }
  }

  lemma BelowHasParent(t: Table, id: Id, x: Id)
    requires Rooted(t) && Under(t, id, x) && x != id
    ensures exists y :: y in PathOf(t, x) && t[y].parent == Some(id)
  {
    var path := PathOf(t, x);
    var k := IndexOf(path, id);
    assert Above(path, k - 1) == Some(id) && path[k - 1] in path;
  }

  /** A page without live children is its whole live subtree. */
  lemma LeafTaken(t: Table, id: Id)
    requires Inv(t) && id in t && t[id].Live()
    requires forall x | x in t && t[x].Live() :: t[x].parent != Some(id)
    ensures Taken(t, id) == {id}
  {
    assert PathOf(t, id)[0] == id;
    forall x | x in Taken(t, id) ensures x == id {
      LivePath(t, x);
      if x != id { BelowHasParent(t, id, x); }
    }
  }

  /** All thirteen pages, the last one in the trash on its own. */
  ghost predicate LeafTrashed(t: Table) {
    && (forall i: Id :: i in t <==> i < 13)
    && (forall i | i in t :: t[i].workspace == 0 && t[i].parent == ParentOf(i) && (t[i].Live() <==> i != 12))
    && t[12].deletedRoot == Some(12)
  }

  lemma LeafDeleted(db: Db, step: Step)
    requires Inv(db.pages) && Grown(db.pages, 13) && step == Delete(0, 0, 12, 0)
    ensures LeafTrashed(Next(db, step).pages)
  {
    LeafTaken(db.pages, step.page);
    DeleteShape(db, step.workspace, step.actor, step.page, step.at);
    LeafTrashedFrom(db.pages, Next(db, step).pages, step.at);
  }

  lemma LeafTrashedFrom(t: Table, u: Table, at: Time)
    requires Rooted(t) && Grown(t, 13) && Trashed(t, u, 12, at) && Taken(t, 12) == {12}
    ensures LeafTrashed(u)
  {
    assert forall i | i in t :: t[i].parent == ParentOf(i);
  }

  lemma {:induction false} TrashedDepth(t: Table, i: nat)
    requires Rooted(t) && LeafTrashed(t) && i < 11
    ensures Depth(t, i) == i + 1
    ensures !Under(t, 11, i)
  {
    PathStep(t, i);
    if i > 0 { TrashedDepth(t, i - 1); }
  }

  lemma MayMove(t: Table)
    requires Inv(t) && LeafTrashed(t)
    ensures MoveRefusal(t, 0, 11, Some(10)).None?
  {
    TrashedDepth(t, 10);
    LeafTaken(t, 11);
    PathStep(t, 11);
    assert Level(t, 11, 11) == 1 && Height(t, 11) == 1;
  }

  lemma MoveCommits(db: Db, workspace: Id, actor: Id, id: Id, parent: Option<Id>, index: nat)
    requires LiveIn(db.pages, workspace, id) && parent != db.pages[id].parent
    ensures MoveTo(db, workspace, actor, id, parent, index).1 == Done(id)
  {
    var placed := Place(db.pages, workspace, parent, Some(index), Some(id));
    PlaceRekeys(db.pages, workspace, parent, Some(index), Some(id));
    DiffNotEmpty(StateOf(db.pages[id]), StateOf(db.pages[id]).(parent := parent, position := placed.key), Parent);
  }

  /** A move to another parent that nothing refuses is committed. */
  lemma MovedAway(db: Db, step: Step)
    requires Inv(db.pages) && step.Move? && LiveIn(db.pages, step.workspace, step.page)
    requires MoveRefusal(db.pages, step.workspace, step.page, step.parent).None?
    requires step.parent != db.pages[step.page].parent
    ensures Moved(db.pages, Next(db, step).pages, step.page, step.parent)
  {
    MoveCommits(db, step.workspace, step.actor, step.page, step.parent, step.index);
    MoveShape(db, step.workspace, step.actor, step.page, step.parent, step.index);
  }

  /** The leaf of the moved page no longer fits under it. */
  lemma LeafFitsNoMore(t: Table, u: Table)
    requires Inv(t) && Inv(u) && LeafTrashed(t) && Moved(t, u, 11, Some(10))
    ensures 12 in u && u[12].workspace == 0 && u[12].deletedRoot == Some(12) && !FitsUnder(u, 12)
  {
    TrashedDepth(t, 10);
    PathStep(t, 11);
    MovedDepth(t, u, 11, Some(10), 11);
    assert Rekeyed(t[12], u[12]);
    assert 12 in TrashedWith(u, 12) && ParentDepth(u, RestoredParent(u, 12)) == 12;
  }

  lemma TooDeepReached()
    ensures Inv(map[])
    ensures var t := Run(Db(map[], []), TooDeepRun()).pages;
            12 in t && t[12].workspace == 0 && t[12].deletedRoot == Some(12) && !FitsUnder(t, 12)
  {
    var empty, delete, move := Db(map[], []), Delete(0, 0, 12, 0), Move(0, 0, 11, Some(10), 0);
    AllGrown(empty, 13);
    RunSnoc(empty, CreateAll(13), delete);
    LeafDeleted(Run(empty, CreateAll(13)), delete);
    var deleted := Run(empty, CreateAll(13) + [delete]);
    RunSnoc(empty, CreateAll(13) + [delete], move);
    MayMove(deleted.pages);
    MovedAway(deleted, move);
    LeafFitsNoMore(deleted.pages, Next(deleted, move).pages);
  }

  lemma TooDeepShallow()
    ensures Inv(map[])
    ensures Shallow(Run(Db(map[], []), TooDeepRun()).pages)
  {
    NoRestores(13);
    RunKeepsShallow(Db(map[], []), TooDeepRun());
  }

  /** From an empty instance a run that keeps the limit of depth at every step, and one restore after it that puts a
      page deeper. */
  lemma RestoreTooDeep(step: Step)
    requires step == Restore(0, 0, 12)
    ensures Inv(map[])
    ensures var db := Run(Db(map[], []), TooDeepRun());
            Shallow(db.pages) && Apply(db, step).1 == Done(12) && !Shallow(Next(db, step).pages)
  {
    TooDeepReached();
    TooDeepShallow();
    RestoreRequestKeepsShallow(Run(Db(map[], []), TooDeepRun()), step);
  }

  lemma {:induction false} NoRestores(n: nat)
    ensures forall step | step in CreateAll(n) :: !step.Restore?
  {
    if n > 0 { NoRestores(n - 1); }
  }
}
