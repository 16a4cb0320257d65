/** The `pages` table as a forest of links to parents: paths to the root, the invariant of the tree and
    of its trash, and the order of siblings. */
module Forest {
  import opened Base
  import opened Keys

  datatype PageType = Document | Board | Group

  datatype PageIcon = Emoji(emoji: string) | Lucide(name: string) | Asset(asset: Id)

  datatype Page = Page(
    workspace: Id,
    parent: Option<Id>,
    position: Key,
    kind: PageType,
    title: string,
    icon: Option<PageIcon>,
    shortId: string,
    createdBy: Id,
    version: nat,
    deletedAt: Option<Time>,
    deletedRoot: Option<Id>)
  {
    predicate Live() {
      deletedAt.None?
    }
  }

  type Table = map<Id, Page>

  // ---- Paths ----

  /** `path` leads from `id` up to the root. */
  ghost predicate IsPath(t: Table, id: Id, path: seq<Id>) {
    && path != []
    && path[0] == id
    && (forall i | 0 <= i < |path| :: path[i] in t)
    && forall i {:trigger Above(path, i)} | 0 <= i < |path| :: t[path[i]].parent == Above(path, i)
  }

  /** What a path has after its `i`th page. */
  function Above(path: seq<Id>, i: nat): Option<Id>
    requires i < |path|
  {
    if i + 1 < |path| then Some(path[i + 1]) else None
  }

  /** Every page's chain of parents ends at the root: there is no cycle and no missing parent. */
  ghost predicate Rooted(t: Table) {
    forall id | id in t :: HasPath(t, id)
  }

  ghost predicate HasPath(t: Table, id: Id) {
    exists path :: IsPath(t, id, path)
  }

  ghost function PathOf(t: Table, id: Id): (path: seq<Id>)
    requires id in t && Rooted(t)
    ensures IsPath(t, id, path)
  {
    assert HasPath(t, id);
    var path :| IsPath(t, id, path);
    path
  }

  /** The number of pages on the path, itself included. */
  ghost function Depth(t: Table, id: Id): (depth: nat)
    requires id in t && Rooted(t)
    ensures depth >= 1
  {
    |PathOf(t, id)|
  }

  /** `id` is `root` or somewhere under it. */
  ghost predicate Under(t: Table, root: Id, id: Id)
    requires Rooted(t)
  {
    id in t && root in PathOf(t, id)
  }

  lemma {:induction false} PathUnique(t: Table, id: Id, p: seq<Id>, q: seq<Id>)
    requires IsPath(t, id, p) && IsPath(t, id, q)
    ensures p == q
    decreases |p|
  {
    assert Above(p, 0) == t[id].parent == Above(q, 0);
    if |p| > 1 {
      PathTail(t, p, 1);
      PathTail(t, q, 1);
      PathUnique(t, p[1], p[1..], q[1..]);
      assert p == [p[0]] + p[1..] && q == [q[0]] + q[1..];
    }
  }

  lemma PathTail(t: Table, path: seq<Id>, k: nat)
    requires k < |path| && IsPath(t, path[0], path)
    ensures IsPath(t, path[k], path[k..])
  {
    var tail := path[k..];
    forall i | 0 <= i < |tail|
      ensures tail[i] in t && t[tail[i]].parent == Above(tail, i)
    {
      assert tail[i] == path[k + i] && Above(tail, i) == Above(path, k + i);
    }
  }

  lemma PathExtend(t: Table, id: Id, rest: seq<Id>)
    requires id in t && t[id].parent == (if rest == [] then None else Some(rest[0]))
    requires rest != [] ==> IsPath(t, rest[0], rest)
    ensures IsPath(t, id, [id] + rest) && HasPath(t, id)
  {
    var path := [id] + rest;
    forall i | 0 <= i < |path| ensures path[i] in t && t[path[i]].parent == Above(path, i) {
      if i > 0 {
        assert path[i] == rest[i - 1] && Above(path, i) == Above(rest, i - 1);
      }
    }
    assert IsPath(t, id, path);
  }

  /** The path of a page goes through its parent's. */
  lemma PathStep(t: Table, id: Id)
    requires Rooted(t) && id in t
    ensures t[id].parent.None? ==> PathOf(t, id) == [id]
    ensures t[id].parent.Some? ==>
              t[id].parent.value in t && PathOf(t, id) == [id] + PathOf(t, t[id].parent.value)
  {
    var path := PathOf(t, id);
    assert t[id].parent == Above(path, 0);
    if |path| > 1 {
      PathTail(t, path, 1);
      PathUnique(t, path[1], path[1..], PathOf(t, path[1]));
    }
  }

  lemma PathSuffix(t: Table, id: Id, k: nat)
    requires Rooted(t) && id in t && k < |PathOf(t, id)|
    ensures PathOf(t, id)[k] in t && PathOf(t, PathOf(t, id)[k]) == PathOf(t, id)[k..]
  {
    var path := PathOf(t, id);
    PathTail(t, path, k);
    PathUnique(t, path[k], path[k..], PathOf(t, path[k]));
  }

  /** No page is twice on a path. */
  lemma PathDistinct(t: Table, id: Id)
    requires Rooted(t) && id in t
    ensures Distinct(PathOf(t, id))
  {
    var path := PathOf(t, id);
    forall i, j | 0 <= i < j < |path| ensures path[i] != path[j] {
      PathSuffix(t, id, i);
      PathSuffix(t, id, j);
    }
  }

  /** Two pages are never under each other. */
  lemma UnderAntisymmetric(t: Table, a: Id, b: Id)
    requires Rooted(t) && Under(t, a, b) && Under(t, b, a)
    ensures a == b
  {
    PathSuffix(t, a, IndexOf(PathOf(t, a), b));
    PathSuffix(t, b, IndexOf(PathOf(t, b), a));
  }

  /** A path depends only on the parents along it. */
  lemma PathFrame(t: Table, u: Table, id: Id)
    requires Rooted(t) && id in t
    requires forall x | x in PathOf(t, id) :: x in u && u[x].parent == t[x].parent
    ensures IsPath(u, id, PathOf(t, id)) && HasPath(u, id)
    ensures Rooted(u) ==> PathOf(u, id) == PathOf(t, id)
  {
    assert IsPath(u, id, PathOf(t, id));
    if Rooted(u) {
      PathUnique(u, id, PathOf(u, id), PathOf(t, id));
    }
  }

  // ---- The invariant ----

  /** A parent is in its child's workspace, and live if the child is. A page is in the trash exactly
      when it has the root of that trash; and one that is not that root itself has its parent there. */
  ghost predicate Fits(t: Table, id: Id)
    requires id in t
  {
    && (t[id].parent.Some? ==>
          && t[id].parent.value in t
          && t[t[id].parent.value].workspace == t[id].workspace
          && (t[id].Live() ==> t[t[id].parent.value].Live()))
    && (t[id].Live() <==> t[id].deletedRoot.None?)
    && (t[id].deletedRoot.Some? && t[id].deletedRoot.value != id ==>
          && t[id].parent.Some?
          && t[t[id].parent.value].deletedRoot == t[id].deletedRoot
          && t[t[id].parent.value].deletedAt == t[id].deletedAt)
  }

  /** The `UNIQUE` of `short_id`. */
  ghost predicate ShortIdsUnique(t: Table) {
    forall a, b {:trigger t[a].shortId, t[b].shortId} | a in t && b in t && a != b :: t[a].shortId != t[b].shortId
  }

  ghost predicate Inv(t: Table) {
    Rooted(t) && ShortIdsUnique(t) && forall id {:trigger Fits(t, id)} | id in t :: Fits(t, id)
  }

  /** Everything above a live page is live. */
  lemma {:induction false} LivePath(t: Table, id: Id)
    requires Inv(t) && id in t && t[id].Live()
    ensures forall x | x in PathOf(t, id) :: x in t && t[x].Live() && t[x].workspace == t[id].workspace
    decreases Depth(t, id)
  {
    PathStep(t, id);
    assert Fits(t, id);
    if t[id].parent.Some? {
      LivePath(t, t[id].parent.value);
    }
  }

  /** The root of a page's trash is above it, trashed on its own at the same time. */
  lemma {:induction false} TrashRootAbove(t: Table, id: Id)
    requires Inv(t) && id in t && t[id].deletedRoot.Some?
    ensures var root := t[id].deletedRoot.value;
            && Under(t, root, id) && root in t
            && t[root].deletedRoot == Some(root)
            && t[root].deletedAt == t[id].deletedAt
            && t[root].workspace == t[id].workspace
    decreases Depth(t, id)
  {
    PathStep(t, id);
    assert Fits(t, id);
    if t[id].deletedRoot.value != id {
      TrashRootAbove(t, t[id].parent.value);
    }
  }

  // ---- Sets of pages ----

  /** The page and its live descendants: what deleting it takes. */
  ghost function Taken(t: Table, root: Id): set<Id>
    requires Rooted(t)
  {
    set id | id in t && t[id].Live() && Under(t, root, id)
  }

  /** The pages in the trash with `root`, itself included. */
  ghost function TrashedWith(t: Table, root: Id): set<Id> {
    set id | id in t && t[id].deletedRoot == Some(root)
  }

  ghost function LivePages(t: Table): set<Id> {
    set id | id in t && t[id].Live()
  }

  /** The live children of a parent (the root of the workspace when `None`), without `except`. */
  ghost function Kids(t: Table, workspace: Id, parent: Option<Id>, except: Option<Id>): set<Id> {
    set id | id in t && t[id].workspace == workspace && t[id].parent == parent && t[id].Live() && Some(id) != except
  }

  // ---- Order ----

  /** `ORDER BY position, id`. */
  predicate Before(t: Table, a: Id, b: Id)
    requires a in t && b in t
  {
    Less(t[a].position, t[b].position) || (t[a].position == t[b].position && a < b)
  }

  lemma BeforeTransitive(t: Table, a: Id, b: Id, c: Id)
    requires a in t && b in t && c in t && Before(t, a, b) && Before(t, b, c)
    ensures Before(t, a, c)
  {
    if Less(t[a].position, t[b].position) && Less(t[b].position, t[c].position) {
      LessTransitive(t[a].position, t[b].position, t[c].position);
    }
  }

  lemma BeforeTotal(t: Table, a: Id, b: Id)
    requires a in t && b in t
    ensures Before(t, a, b) || a == b || Before(t, b, a)
    ensures Before(t, a, b) ==> a != b && !Before(t, b, a)
  {
    LessTotal(t[a].position, t[b].position);
    if Less(t[a].position, t[b].position) {
      LessAsymmetric(t[a].position, t[b].position);
    }
    if Less(t[b].position, t[a].position) {
      LessAsymmetric(t[b].position, t[a].position);
    }
  }

  ghost predicate Ordered(t: Table, ids: seq<Id>) {
    && (forall i | 0 <= i < |ids| :: ids[i] in t)
    && (forall i, j | 0 <= i < j < |ids| :: Before(t, ids[i], ids[j]))
  }

  /** `ids` are the pages of `pages`, in order. */
  ghost predicate Lists(t: Table, ids: seq<Id>, pages: set<Id>) {
    Ordered(t, ids) && forall x :: x in ids <==> x in pages
  }

  lemma OrderedDistinct(t: Table, ids: seq<Id>)
    requires Ordered(t, ids)
    ensures Distinct(ids)
  {
    forall i, j | 0 <= i < j < |ids| ensures ids[i] != ids[j] {
      BeforeTotal(t, ids[i], ids[j]);
    }
  }

  lemma {:induction false} ListsUnique(t: Table, a: seq<Id>, b: seq<Id>, pages: set<Id>)
    requires Lists(t, a, pages) && Lists(t, b, pages)
    ensures a == b
    decreases |a|
  {
    ListsEmpty(t, a, pages);
    ListsEmpty(t, b, pages);
    if a != [] {
      assert a[0] in b && b[0] in a;
      BeforeTotal(t, a[0], b[0]);
      assert a[0] == b[0];
      ListsTail(t, a, pages);
      ListsTail(t, b, pages);
      ListsUnique(t, a[1..], b[1..], pages - {a[0]});
      assert a == [a[0]] + a[1..] && b == [b[0]] + b[1..];
    }
  }

  lemma ListsEmpty(t: Table, ids: seq<Id>, pages: set<Id>)
    requires Lists(t, ids, pages)
    ensures ids == [] <==> pages == {}
  {
    if ids != [] { assert ids[0] in pages; }
  }

  lemma ListsTail(t: Table, ids: seq<Id>, pages: set<Id>)
    requires Lists(t, ids, pages) && ids != []
    ensures Lists(t, ids[1..], pages - {ids[0]})
  {
    OrderedDistinct(t, ids);
    assert ids == [ids[0]] + ids[1..];
  }

  /** `ids` with `x` put in its place. */
  ghost function Insert(t: Table, x: Id, ids: seq<Id>): (r: seq<Id>)
    requires x in t && x !in ids && Ordered(t, ids)
    ensures Ordered(t, r) && forall y :: y in r <==> y == x || y in ids
  {
    if ids == [] then [x]
    else if Before(t, x, ids[0]) then
      FirstStays(t, x, ids);
      [x] + ids
    else
      var rest := Insert(t, x, ids[1..]);
      BeforeTotal(t, x, ids[0]);
      FirstStays(t, ids[0], rest);
      [ids[0]] + rest
  }

  lemma FirstStays(t: Table, first: Id, rest: seq<Id>)
    requires first in t && Ordered(t, rest)
    requires rest != [] ==> Before(t, first, rest[0]) || forall y | y in rest :: Before(t, first, y)
    ensures Ordered(t, [first] + rest)
  {
    forall i | 0 <= i < |rest| ensures Before(t, first, rest[i]) {
      if Before(t, first, rest[0]) && i > 0 { BeforeTransitive(t, first, rest[0], rest[i]); }
    }
  }

  ghost function InOrder(t: Table, pages: set<Id>): (ids: seq<Id>)
    requires forall x | x in pages :: x in t
    ensures Lists(t, ids, pages)
    decreases |pages|
  {
    if pages == {} then []
    else
      var x :| x in pages;
      Insert(t, x, InOrder(t, pages - {x}))
  }

  /** The children of a parent in their order. */
  ghost function Children(t: Table, workspace: Id, parent: Option<Id>, except: Option<Id>): (ids: seq<Id>)
    ensures Lists(t, ids, Kids(t, workspace, parent, except))
  {
    InOrder(t, Kids(t, workspace, parent, except))
  }

  /** Of two children the one with the lower key comes first, and of two with one key the one with the lower id. */
  lemma ChildrenInOrder(t: Table, workspace: Id, parent: Option<Id>, except: Option<Id>, i: nat, j: nat)
    requires i < j < |Children(t, workspace, parent, except)|
    ensures var ids := Children(t, workspace, parent, except);
            && ids[i] in t && ids[j] in t
            && if t[ids[i]].position == t[ids[j]].position then ids[i] < ids[j]
               else Less(t[ids[i]].position, t[ids[j]].position)
  {
    var ids := Children(t, workspace, parent, except);
    assert ids[i] in ids && ids[j] in ids && Before(t, ids[i], ids[j]);
    if Less(t[ids[i]].position, t[ids[j]].position) { LessAsymmetric(t[ids[i]].position, t[ids[j]].position); }
  }

  lemma ChildrenAre(t: Table, workspace: Id, parent: Option<Id>, except: Option<Id>, ids: seq<Id>)
    requires Lists(t, ids, Kids(t, workspace, parent, except))
    ensures Children(t, workspace, parent, except) == ids
  {
    ListsUnique(t, ids, Children(t, workspace, parent, except), Kids(t, workspace, parent, except));
  }

  /** Order depends only on the set and on the keys. */
  lemma ChildrenFrame(t: Table, u: Table, workspace: Id, parent: Option<Id>, exceptT: Option<Id>, exceptU: Option<Id>)
    requires Kids(t, workspace, parent, exceptT) == Kids(u, workspace, parent, exceptU)
    requires forall x | x in Kids(t, workspace, parent, exceptT) :: t[x].position == u[x].position
    ensures Children(t, workspace, parent, exceptT) == Children(u, workspace, parent, exceptU)
  {
    var ids := Children(t, workspace, parent, exceptT);
    assert forall i | 0 <= i < |ids| :: ids[i] in ids && ids[i] in u;
    forall i, j | 0 <= i < j < |ids| ensures Before(u, ids[i], ids[j]) {
      assert ids[i] in ids && ids[j] in ids;
      assert Before(t, ids[i], ids[j]);
    }
    ChildrenAre(u, workspace, parent, exceptU, ids);
  }
}
