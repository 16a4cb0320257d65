/** The client's copy of a workspace's pages: a flat list in the server's order, on which a delete and a
    move are applied before the server answers. */
module ClientTree {
  import opened Base
  import opened Forest
  import opened PageSteps
  import PageTree
  import opened PageOrder

  datatype Node = Node(id: Id, parent: Option<Id>, title: string)

  ghost predicate DistinctIds(nodes: seq<Node>) {
    forall i, j | 0 <= i < j < |nodes| :: nodes[i].id != nodes[j].id
  }

  /** The ids of a parent's children, in the order of the list. */
  function ChildIds(nodes: seq<Node>, parent: Option<Id>): seq<Id> {
    if nodes == [] then []
    else if nodes[0].parent == parent then [nodes[0].id] + ChildIds(nodes[1..], parent)
    else ChildIds(nodes[1..], parent)
  }

  lemma {:induction false} ChildIdsMember(nodes: seq<Node>, parent: Option<Id>, x: Id)
    ensures x in ChildIds(nodes, parent) <==> exists n :: n in nodes && n.id == x && n.parent == parent
  {
    if nodes != [] {
      ChildIdsMember(nodes[1..], parent, x);
      assert nodes == [nodes[0]] + nodes[1..];
    }
  }

  lemma {:induction false} ChildIdsConcat(a: seq<Node>, b: seq<Node>, parent: Option<Id>)
    ensures ChildIds(a + b, parent) == ChildIds(a, parent) + ChildIds(b, parent)
  {
    if a == [] {
      assert a + b == b;
    } else {
      assert (a + b)[1..] == a[1..] + b;
      ChildIdsConcat(a[1..], b, parent);
    }
  }

  lemma ChildIdsSplit(nodes: seq<Node>, at: nat, parent: Option<Id>)
    requires at <= |nodes|
    ensures ChildIds(nodes, parent) == ChildIds(nodes[..at], parent) + ChildIds(nodes[at..], parent)
  {
    ChildIdsConcat(nodes[..at], nodes[at..], parent);
    assert nodes == nodes[..at] + nodes[at..];
  }

  function Without(nodes: seq<Node>, id: Id): (rest: seq<Node>)
    ensures forall n :: n in rest <==> n in nodes && n.id != id
  {
    if nodes == [] then []
    else if nodes[0].id == id then Without(nodes[1..], id)
    else [nodes[0]] + Without(nodes[1..], id)
  }

  lemma {:induction false} ChildIdsWithout(nodes: seq<Node>, id: Id, parent: Option<Id>)
    ensures ChildIds(Without(nodes, id), parent) == Drop(ChildIds(nodes, parent), id)
  {
    if nodes != [] {
      ChildIdsWithout(nodes[1..], id, parent);
    }
  }

  lemma {:induction false} WithoutDistinct(nodes: seq<Node>, id: Id)
    requires DistinctIds(nodes)
    ensures DistinctIds(Without(nodes, id))
  {
    if nodes != [] {
      WithoutDistinct(nodes[1..], id);
      var rest := Without(nodes[1..], id);
      forall n | n in rest ensures n.id != nodes[0].id {
        var i := IndexOf(nodes[1..], n);
        assert nodes[i + 1].id != nodes[0].id;
      }
    }
  }

  // ---- The optimistic move ----

  /** The node is one of the list but for its parent. */
  ghost predicate Reparented(nodes: seq<Node>, n: Node, parent: Option<Id>) {
    n.parent == parent && exists was :: was in nodes && was.id == n.id && was.title == n.title
  }

  /** `next` is `nodes` with `id` at `index` among the children of `parent`, everything else in order. */
  ghost predicate IsMoved(nodes: seq<Node>, next: seq<Node>, id: Id, parent: Option<Id>, index: nat) {
    && Without(next, id) == Without(nodes, id)
    && (forall n | n in next && n.id == id :: Reparented(nodes, n, parent))
    && forall p: Option<Id> ::
         ChildIds(next, p) ==
           var others := Drop(ChildIds(nodes, p), id);
           if p == parent then InsertAt(others, Min(index, |others|), id) else others
  }

  /** The place of a parent's `index`th child in the list. */
  lemma {:induction false} ChildPlace(nodes: seq<Node>, parent: Option<Id>, index: nat, at: nat)
    requires DistinctIds(nodes) && index < |ChildIds(nodes, parent)| && at < |nodes|
    requires nodes[at].id == ChildIds(nodes, parent)[index]
    ensures ChildIds(nodes[..at], parent) == ChildIds(nodes, parent)[..index]
    ensures ChildIds(nodes[at..], parent) == ChildIds(nodes, parent)[index..]
  {
    ChildIdsSplit(nodes, at, parent);
    var ids := ChildIds(nodes, parent);
    var before := ChildIds(nodes[..at], parent);
    assert ids[index] in ids;
    ChildIdsMember(nodes, parent, ids[index]);
    var n :| n in nodes && n.id == ids[index] && n.parent == parent;
    assert n == nodes[at];
    assert nodes[at..][0] == nodes[at] && ChildIds(nodes[at..], parent)[0] == nodes[at].id;
    assert ids[|before|] == nodes[at].id;
    ChildIdsDistinct(nodes, parent);
  }

  lemma {:induction false} ChildIdsDistinct(nodes: seq<Node>, parent: Option<Id>)
    requires DistinctIds(nodes)
    ensures Distinct(ChildIds(nodes, parent))
  {
    if nodes != [] {
      ChildIdsDistinct(nodes[1..], parent);
      var rest := ChildIds(nodes[1..], parent);
      assert forall k | 0 <= k < |rest| :: rest[k] in rest;
      forall x | x in rest ensures x != nodes[0].id {
        ChildIdsMember(nodes[1..], parent, x);
        var n :| n in nodes[1..] && n.id == x;
        var i := IndexOf(nodes[1..], n);
        assert nodes[i + 1].id != nodes[0].id;
      }
    }
  }

  /** `at` is where the `index`th child of `parent` is in the list, its end when there is none. */
  ghost predicate IsPlace(rest: seq<Node>, parent: Option<Id>, index: nat, at: nat) {
    var siblings := ChildIds(rest, parent);
    && at <= |rest|
    && if index < |siblings| then at < |rest| && rest[at].id == siblings[index] else at == |rest|
  }

  /** The children before and after that place. */
  lemma PlaceSplits(rest: seq<Node>, parent: Option<Id>, index: nat, at: nat)
    requires DistinctIds(rest) && IsPlace(rest, parent, index, at)
    ensures var others := ChildIds(rest, parent);
            && ChildIds(rest[..at], parent) == others[..Min(index, |others|)]
            && ChildIds(rest[at..], parent) == others[Min(index, |others|)..]
  {
    if index < |ChildIds(rest, parent)| {
      ChildPlace(rest, parent, index, at);
    } else {
      assert rest[..at] == rest && rest[at..] == [];
    }
  }

  lemma SplicedIds(head: seq<Node>, moved: Node, tail: seq<Node>, p: Option<Id>)
    ensures ChildIds(head + [moved] + tail, p)
         == if p == moved.parent then ChildIds(head, p) + [moved.id] + ChildIds(tail, p)
            else ChildIds(head, p) + ChildIds(tail, p)
  {
    ChildIdsConcat(head + [moved], tail, p);
    ChildIdsConcat(head, [moved], p);
  }

  /** Splicing a child of `parent` in there puts it at its index. */
  lemma SpliceChildren(rest: seq<Node>, moved: Node, index: nat, at: nat, p: Option<Id>)
    requires DistinctIds(rest) && IsPlace(rest, moved.parent, index, at)
    ensures var others := ChildIds(rest, p);
            ChildIds(rest[..at] + [moved] + rest[at..], p)
            == if p == moved.parent then InsertAt(others, Min(index, |others|), moved.id) else others
  {
    SplicedIds(rest[..at], moved, rest[at..], p);
    if p == moved.parent {
      PlaceSplits(rest, p, index, at);
    } else {
      ChildIdsSplit(rest, at, p);
    }
  }

  lemma {:induction false} SpliceKeepsRest(rest: seq<Node>, moved: Node, at: nat)
    requires at <= |rest| && forall n | n in rest :: n.id != moved.id
    ensures Without(rest[..at] + [moved] + rest[at..], moved.id) == rest
  {
    var spliced := rest[..at] + [moved] + rest[at..];
    if at == 0 {
      assert spliced == [moved] + rest;
      NothingDropped(rest, moved.id);
    } else {
      assert rest[1..][..at - 1] == rest[..at][1..] && rest[1..][at - 1..] == rest[at..];
      assert spliced[1..] == rest[1..][..at - 1] + [moved] + rest[1..][at - 1..];
      SpliceKeepsRest(rest[1..], moved, at - 1);
    }
  }

  lemma {:induction false} NothingDropped(nodes: seq<Node>, id: Id)
    requires forall n | n in nodes :: n.id != id
    ensures Without(nodes, id) == nodes
  {
    if nodes != [] { NothingDropped(nodes[1..], id); }
  }

  lemma SpliceMoves(nodes: seq<Node>, moved: Node, index: nat, at: nat)
    requires DistinctIds(nodes) && Reparented(nodes, moved, moved.parent)
    requires IsPlace(Without(nodes, moved.id), moved.parent, index, at)
    ensures IsMoved(nodes, Without(nodes, moved.id)[..at] + [moved] + Without(nodes, moved.id)[at..], moved.id,
        moved.parent, index)
  {
    var rest := Without(nodes, moved.id);
    WithoutDistinct(nodes, moved.id);
    forall p: Option<Id>
      ensures ChildIds(rest[..at] + [moved] + rest[at..], p) ==
                var others := Drop(ChildIds(nodes, p), moved.id);
                if p == moved.parent then InsertAt(others, Min(index, |others|), moved.id) else others
    {
      ChildIdsWithout(nodes, moved.id, p);
      SpliceChildren(rest, moved, index, at, p);
    }
    SpliceKeepsRest(rest, moved, at);
    SpliceHasMoved(nodes, rest, moved, at);
  }

  lemma SpliceHasMoved(nodes: seq<Node>, rest: seq<Node>, moved: Node, at: nat)
    requires Reparented(nodes, moved, moved.parent) && at <= |rest| && forall n | n in rest :: n.id != moved.id
    ensures forall n | n in rest[..at] + [moved] + rest[at..] && n.id == moved.id :: Reparented(nodes, n, moved.parent)
  {
  }

  /** Where a page is in the list; its length when it is not there. */
  method FindId(nodes: seq<Node>, id: Id) returns (at: nat)
    ensures at <= |nodes| && (at < |nodes| ==> nodes[at].id == id)
    ensures forall i | 0 <= i < at :: nodes[i].id != id
  {
    at := 0;
    while at < |nodes| && nodes[at].id != id
      invariant at <= |nodes| && forall i | 0 <= i < at :: nodes[i].id != id
    {
      at := at + 1;
    }
  }

  /** Splices the page out, and back in before the sibling its index names. */
  method MovedIn(nodes: seq<Node>, id: Id, parent: Option<Id>, index: nat) returns (next: seq<Node>)
    requires DistinctIds(nodes)
    ensures if exists n :: n in nodes && n.id == id then IsMoved(nodes, next, id, parent, index) else next == nodes
  {
    var found := FindId(nodes, id);
    if found == |nodes| {
      return nodes;
    }
    var rest := Without(nodes, id);
    var siblings := ChildIds(rest, parent);
    var at := |rest|;
    if index < |siblings| {
      assert siblings[index] in siblings;
      at := FindId(rest, siblings[index]);
      ChildIdsMember(rest, parent, siblings[index]);
    }
    var moved := nodes[found].(parent := parent);
    next := rest[..at] + [moved] + rest[at..];
    SpliceMoves(nodes, moved, index, at);
  }

  // ---- The optimistic delete ----

  /** A set that holds `root` and, with a page, its children. */
  ghost predicate Closed(nodes: seq<Node>, root: Id, ids: set<Id>) {
    root in ids && forall n | n in nodes && n.parent.Some? && n.parent.value in ids :: n.id in ids
  }

  /** The least such set. */
  ghost predicate IsSubtree(nodes: seq<Node>, root: Id, ids: set<Id>) {
    Closed(nodes, root, ids) && forall other | Closed(nodes, root, other) :: ids <= other
  }

  lemma {:induction false} SubsetSize(a: set<Id>, b: set<Id>)
    requires a <= b
    ensures |a| <= |b| && (|a| == |b| ==> a == b)
    decreases a
  {
    if a != {} {
      var x :| x in a;
      SubsetSize(a - {x}, b - {x});
    } else if |b| == 0 {
      assert b == {};
    }
  }

  /** Passes over the list adding children of what was found, until a pass adds none. */
  method SubtreeOf(nodes: seq<Node>, root: Id) returns (ids: set<Id>)
    ensures IsSubtree(nodes, root, ids)
  {
    ids := {root};
    ghost var all := {root} + set n | n in nodes :: n.id;
    var size := 0;
    while size != |ids|
      invariant root in ids && ids <= all && size <= |ids|
      invariant forall other | Closed(nodes, root, other) :: ids <= other
      invariant size == |ids| ==> Closed(nodes, root, ids)
      decreases |all| - size
    {
      SubsetSize(ids, all);
      size := |ids|;
      ghost var start := ids;
      for i := 0 to |nodes|
        invariant start <= ids <= all && root in ids && size <= |ids| && (size == |ids| ==> ids == start)
        invariant forall other | Closed(nodes, root, other) :: ids <= other
        invariant forall k | 0 <= k < i && nodes[k].parent.Some? && nodes[k].parent.value in start :: nodes[k].id in ids
      {
        if nodes[i].parent.Some? && nodes[i].parent.value in ids {
          ghost var was := ids;
          ids := ids + {nodes[i].id};
          SubsetSize(was, ids);
        }
      }
    }
  }

  // ---- Against the server ----

  /** `ORDER BY parent_id NULLS FIRST, position, id`. */
  ghost predicate TreeBefore(t: Table, a: Id, b: Id)
    requires a in t && b in t
  {
    if t[a].parent == t[b].parent then Before(t, a, b)
    else t[b].parent.Some? && (t[a].parent.None? || t[a].parent.value < t[b].parent.value)
  }

  /** The list is the workspace's live pages, in the order the server sends them. */
  ghost predicate IsTree(nodes: seq<Node>, t: Table, workspace: Id) {
    && (forall i | 0 <= i < |nodes| :: LiveIn(t, workspace, nodes[i].id) && nodes[i].parent == t[nodes[i].id].parent)
    && (forall x | x in t && LiveIn(t, workspace, x) :: exists n :: n in nodes && n.id == x)
    && (forall i, j | 0 <= i < j < |nodes| :: TreeBefore(t, nodes[i].id, nodes[j].id))
  }

  lemma {:induction false} ChildIdsOrdered(nodes: seq<Node>, t: Table, parent: Option<Id>)
    requires forall i | 0 <= i < |nodes| :: nodes[i].id in t && nodes[i].parent == t[nodes[i].id].parent
    requires forall i, j | 0 <= i < j < |nodes| :: TreeBefore(t, nodes[i].id, nodes[j].id)
    ensures Ordered(t, ChildIds(nodes, parent))
  {
    if nodes != [] {
      ChildIdsOrdered(nodes[1..], t, parent);
      var rest := ChildIds(nodes[1..], parent);
      if nodes[0].parent == parent {
        forall x | x in rest ensures Before(t, nodes[0].id, x) {
          ChildIdsMember(nodes[1..], parent, x);
          var n :| n in nodes[1..] && n.id == x && n.parent == parent;
          var i := IndexOf(nodes[1..], n);
          assert TreeBefore(t, nodes[0].id, nodes[i + 1].id);
        }
        FirstStays(t, nodes[0].id, rest);
      }
    }
  }

  /** In the list every parent's children are as the server orders them. */
  lemma TreeChildren(nodes: seq<Node>, t: Table, workspace: Id, parent: Option<Id>)
    requires IsTree(nodes, t, workspace)
    ensures ChildIds(nodes, parent) == Children(t, workspace, parent, None)
  {
    ChildIdsOrdered(nodes, t, parent);
    var ids := ChildIds(nodes, parent);
    forall x ensures x in ids <==> x in Kids(t, workspace, parent, None) {
      ChildIdsMember(nodes, parent, x);
      if x in Kids(t, workspace, parent, None) {
        var n :| n in nodes && n.id == x;
        assert n.parent == parent;
      }
    }
    ChildrenAre(t, workspace, parent, None, ids);
  }

  /** The client's list after its move has every parent's children in the order of the table `u`. */
  ghost predicate Agrees(next: seq<Node>, u: Table, workspace: Id) {
    forall p: Option<Id> :: ChildIds(next, p) == Children(u, workspace, p, None)
  }

  lemma MovedAgrees(nodes: seq<Node>, next: seq<Node>, t: Table, u: Table, workspace: Id, id: Id, parent: Option<Id>,
                    index: nat)
    requires IsTree(nodes, t, workspace) && IsMoved(nodes, next, id, parent, index)
    ensures AtIndex(t, u, workspace, parent, Some(index), id) <==> ChildIds(next, parent) == Children(u, workspace,
        parent, None)
    ensures PutAt(t, u, workspace, parent, Some(index), id) ==> Agrees(next, u, workspace)
  {
    forall p: Option<Id> ensures Drop(ChildIds(nodes, p), id) == Children(t, workspace, p, Some(id)) {
      TreeChildren(nodes, t, workspace, p);
      ChildrenExcept(t, workspace, p, id);
    }
  }

  /** The optimistic move is the server's: after any move nothing forbids, the client's list has the
      server's order under every parent, exactly when the move is not lost. */
  lemma MoveMatchesServer(db: Db, workspace: Id, actor: Id, id: Id, parent: Option<Id>, index: nat, nodes: seq<Node>,
                          next: seq<Node>)
    requires LiveIn(db.pages, workspace, id)
    requires IsTree(nodes, db.pages, workspace) && IsMoved(nodes, next, id, parent, index)
    ensures Agrees(next, MoveTo(db, workspace, actor, id, parent, index).0.pages, workspace)
       <==> !LostMove(db.pages, workspace, id, parent, index)
  {
    var u := MoveTo(db, workspace, actor, id, parent, index).0.pages;
    MovePlaces(db, workspace, actor, id, parent, index);
    MovedAgrees(nodes, next, db.pages, u, workspace, id, parent, index);
    if LostMove(db.pages, workspace, id, parent, index) {
      StayedPut(db.pages, workspace, id, index);
    }
  }

  /** What the client takes out of its list is exactly what the server trashes. */
  lemma SubtreeIsTaken(nodes: seq<Node>, t: Table, workspace: Id, root: Id, ids: set<Id>)
    requires Inv(t) && LiveIn(t, workspace, root)
    requires IsTree(nodes, t, workspace) && IsSubtree(nodes, root, ids)
    ensures ids == Taken(t, root)
  {
    assert PathOf(t, root)[0] == root;
    forall n | n in nodes && n.parent.Some? && n.parent.value in Taken(t, root) ensures n.id in Taken(t, root) {
      PathStep(t, n.id);
    }
    assert Closed(nodes, root, Taken(t, root));
    forall x | x in Taken(t, root) ensures x in ids {
      TakenInClosed(nodes, t, workspace, root, ids, x);
    }
  }

  lemma {:induction false} TakenInClosed(nodes: seq<Node>, t: Table, workspace: Id, root: Id, ids: set<Id>, x: Id)
    requires Inv(t) && LiveIn(t, workspace, root) && x in Taken(t, root)
    requires IsTree(nodes, t, workspace) && Closed(nodes, root, ids)
    ensures x in ids
    decreases Depth(t, x)
  {
    PathStep(t, x);
    if x != root {
      PageTree.TakenClosed(t, root, x);
      LivePath(t, x);
      TakenInClosed(nodes, t, workspace, root, ids, t[x].parent.value);
      assert LiveIn(t, workspace, x);
      var n :| n in nodes && n.id == x;
    }
  }
}
