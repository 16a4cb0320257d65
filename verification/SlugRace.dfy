/** Creates whose slug is checked or made in one transaction and inserted in the next, while other requests run in
    between: a slug that is left can still go to one of them. */
module SlugRace {
  import opened Base
  import opened ChangeLog
  import opened WorkspaceSteps
  import Slugs
  import S = SlugSafety

  /** A workspace to be inserted. */
  datatype Pending = Pending(id: Id, workspace: Workspace)

  /** The tables, and the creates between their two transactions. */
  datatype Service = Service(db: Db, pending: map<Id, Pending>)

  datatype Event =
    | Whole(step: Step)                  // a request that is not interrupted, or time passing
    | Choose(request: Id, step: Step)    // the first half of a create: its slug is checked or made
    | InsertChosen(request: Id)          // the second half

  /** What a create goes on to insert; none when it is refused or has its answer already. */
  ghost function Chosen(db: Db, step: Step): Option<Pending> {
    match step
    case Create(id, actor, name, slug, ascii, taskPrefix) =>
      if slug.Some? && (Slugs.Validate(slug.value).Some? || IsSlugTaken(db, slug.value)) then None
      else
        var chosen := if slug.Some? then slug.value else GeneratedSlug(db, ascii);
        Some(Pending(id, NewWorkspace(name, chosen, taskPrefix, actor, None)))
    case EnsurePersonal(actor, newId, name, ascii, taskPrefix) =>
      if exists id :: IsPersonal(db, id, actor) then None
      else Some(Pending(newId, NewWorkspace(name, GeneratedSlug(db, ascii), taskPrefix, actor, Some(actor))))
    case _ => None
  }

  /** The `UNIQUE` of the personal workspaces. */
  ghost predicate HasPersonal(db: Db, workspace: Workspace) {
    workspace.personalOf.Some? && exists id :: IsPersonal(db, id, workspace.personalOf.value)
  }

  ghost function Inserted(db: Db, p: Pending): Db {
    if HasPersonal(db, p.workspace) then db else Insert(db, p.id, p.workspace).0
  }

  ghost function After(s: Service, event: Event): Service {
    match event
    case Whole(step) => s.(db := Next(s.db, step))
    case Choose(request, step) =>
      var chosen := Chosen(s.db, step);
      if request in s.pending || chosen.None? then s else s.(pending := s.pending[request := chosen.value])
    case InsertChosen(request) =>
      if request !in s.pending then s
      else Service(Inserted(s.db, s.pending[request]), s.pending - {request})
  }

  ghost function AfterAll(s: Service, events: seq<Event>): Service
    decreases |events|
  {
    if events == [] then s else AfterAll(After(s, events[0]), events[1..])
  }

  /** A create done in both halves at once is the create. */
  lemma HalvesMakeCreate(s: Service, request: Id, step: Step)
    requires request !in s.pending && (step.Create? || step.EnsurePersonal?)
    ensures After(After(s, Choose(request, step)), InsertChosen(request)) == After(s, Whole(step))
  {
    var half := After(s, Choose(request, step));
    assert half.pending - {request} == s.pending;
  }

  // ---- What the tables' constraints keep ----

  /** The `UNIQUE` of the slugs and the foreign key of the aliases. */
  ghost predicate Constrained(db: Db) {
    S.SlugsUnique(db) && S.AliasesOfWorkspaces(db)
  }

  lemma UpdateKeepsConstraints(db: Db, id: Id, next: WorkspaceState, actor: Id, member: bool)
    requires Constrained(db) && id in db.workspaces
    ensures Constrained(Update(db, id, next, actor, member).0)
  {
  }

  lemma NextKeepsConstraints(db: Db, step: Step)
    requires Constrained(db)
    ensures Constrained(Next(db, step))
  {
    match step
    case Tick(_) =>
    case Create(_, _, _, _, _, _) =>
    case EnsurePersonal(_, _, _, _, _) =>
    case _ =>
      var id, next, actor, member := EndsInUpdate(db, step);
      if next.Some? { UpdateKeepsConstraints(db, id, next.value, actor, member); }
  }

  /** With its halves apart too, a create never gives a slug to two workspaces at once. */
  lemma {:induction false} CurrentUnique(s: Service, events: seq<Event>)
    requires Constrained(s.db)
    ensures Constrained(AfterAll(s, events).db)
    decreases |events|
  {
    if events != [] {
      if events[0].Whole? { NextKeepsConstraints(s.db, events[0].step); }
      CurrentUnique(After(s, events[0]), events[1..]);
    }
  }

  // ---- A slug that was left ----

  /** The slug leads to the workspace alone, and will until then. */
  ghost predicate Owned(db: Db, slug: string, id: Id, until: Time) {
    S.Held(db, slug, id, until) && db.now < until <= db.now + ALIAS_LIFE && Resolve(db, slug) == {id}
  }

  /** The create will get this slug if nobody has it as the current one. */
  ghost predicate Waits(s: Service, request: Id, slug: string) {
    && request in s.pending
    && var p := s.pending[request];
       p.workspace.state.slug == slug && p.id !in s.db.workspaces && !HasPersonal(s.db, p.workspace)
  }

  lemma OwnedIsTaken(db: Db, slug: string, id: Id, until: Time)
    requires Owned(db, slug, id, until)
    ensures IsSlugTaken(db, slug)
    ensures forall other | other in db.workspaces && other != id ::
              db.workspaces[other].state.slug != slug && !IsOwnSlug(db, true, other, slug)
  {
    assert id in Resolve(db, slug);
    forall other | other in db.workspaces && other != id
      ensures db.workspaces[other].state.slug != slug && !IsOwnSlug(db, true, other, slug)
    {
      assert other !in Resolve(db, slug);
    }
  }

  lemma OwnUpdateKeeps(db: Db, next: WorkspaceState, actor: Id, member: bool, slug: string, id: Id, until: Time)
    requires Owned(db, slug, id, until)
    ensures Owned(Update(db, id, next, actor, member).0, slug, id, until)
  {
    var u := Update(db, id, next, actor, member).0;
    OwnedIsTaken(db, slug, id, until);
    if slug != db.workspaces[id].state.slug && slug != next.slug {
      S.OtherSlugSame(db, id, next, actor, member, slug);
    } else if u != db {
      assert id in Resolve(u, slug);
      assert forall other | other in Resolve(u, slug) :: other == id;
    }
  }

  lemma UpdateKeeps(db: Db, other: Id, next: WorkspaceState, actor: Id, member: bool, slug: string, id: Id, until: Time)
    requires Owned(db, slug, id, until) && other in db.workspaces
    ensures Owned(Update(db, other, next, actor, member).0, slug, id, until)
  {
    if other == id {
      OwnUpdateKeeps(db, next, actor, member, slug, id, until);
    } else {
      OwnedIsTaken(db, slug, id, until);
      if slug != next.slug { S.OtherSlugSame(db, other, next, actor, member, slug); }
    }
  }

  lemma InsertKeeps(db: Db, other: Id, workspace: Workspace, slug: string, id: Id, until: Time)
    requires Constrained(db) && Owned(db, slug, id, until) && workspace.state.slug != slug
    ensures Owned(Insert(db, other, workspace).0, slug, id, until)
  {
    assert Resolve(Insert(db, other, workspace).0, slug) == Resolve(db, slug);
  }

  lemma NextKeeps(db: Db, step: Step, slug: string, id: Id, until: Time)
    requires Constrained(db) && Owned(db, slug, id, until) && Next(db, step).now < until
    ensures Owned(Next(db, step), slug, id, until)
  {
    match step
    case Tick(_) => assert Resolve(Next(db, step), slug) <= Resolve(db, slug) && id in Resolve(Next(db, step), slug);
    case Create(other, actor, name, wanted, ascii, taskPrefix) =>
      S.GeneratedIsFree(db, ascii);
      OwnedIsTaken(db, slug, id, until);
      if wanted.None? || wanted.value != slug {
        InsertKeeps(db, other, NewWorkspace(name, wanted.GetOr(GeneratedSlug(db, ascii)), taskPrefix, actor, None),
                    slug, id, until);
      }
    case EnsurePersonal(actor, newId, name, ascii, taskPrefix) =>
      S.GeneratedIsFree(db, ascii);
      OwnedIsTaken(db, slug, id, until);
      InsertKeeps(db, newId, NewWorkspace(name, GeneratedSlug(db, ascii), taskPrefix, actor, Some(actor)),
                  slug, id, until);
    case _ =>
      var other, next, actor, member := EndsInUpdate(db, step);
      if next.Some? { UpdateKeeps(db, other, next.value, actor, member, slug, id, until); }
  }

  /** What is chosen while the slug leads to a workspace is another slug. */
  lemma ChosenIsOther(db: Db, step: Step, slug: string, id: Id, until: Time)
    requires Owned(db, slug, id, until)
    ensures Chosen(db, step).Some? ==> Chosen(db, step).value.workspace.state.slug != slug
  {
    OwnedIsTaken(db, slug, id, until);
    match step
    case Create(_, _, _, _, ascii, _) => S.GeneratedIsFree(db, ascii);
    case EnsurePersonal(_, _, _, ascii, _) => S.GeneratedIsFree(db, ascii);
    case _ =>
  }

  ghost predicate NoneWaits(s: Service, slug: string) {
    forall request | request in s.pending :: !Waits(s, request, slug)
  }

  /** No workspace goes away, and a personal one stays that. */
  ghost predicate Stay(b: Db, c: Db) {
    b.workspaces.Keys <= c.workspaces.Keys
    && forall x | x in b.workspaces :: c.workspaces[x].personalOf == b.workspaces[x].personalOf
  }

  lemma UpdateStay(db: Db, id: Id, next: WorkspaceState, actor: Id, member: bool)
    requires id in db.workspaces
    ensures Stay(db, Update(db, id, next, actor, member).0)
  {
  }

  lemma NextStay(db: Db, step: Step)
    ensures Stay(db, Next(db, step))
  {
    match step
    case Tick(_) =>
    case Create(_, _, _, _, _, _) =>
    case EnsurePersonal(_, _, _, _, _) =>
    case _ =>
      var id, next, actor, member := EndsInUpdate(db, step);
      if next.Some? { UpdateStay(db, id, next.value, actor, member); }
  }

  lemma StillNotWaiting(s: Service, t: Service, slug: string)
    requires NoneWaits(s, slug) && Stay(s.db, t.db)
    requires forall r | r in t.pending :: if r in s.pending then t.pending[r] == s.pending[r]
                                          else t.pending[r].workspace.state.slug != slug
    ensures NoneWaits(t, slug)
  {
    forall r | r in t.pending ensures !Waits(t, r, slug) {
      if r in s.pending && HasPersonal(s.db, s.pending[r].workspace) {
        var user := s.pending[r].workspace.personalOf.value;
        var x :| IsPersonal(s.db, x, user);
        assert IsPersonal(t.db, x, user);
      } else if r in s.pending {
        assert !Waits(s, r, slug);
      }
    }
  }

  lemma InsertedKeeps(s: Service, request: Id, slug: string, id: Id, until: Time)
    requires Constrained(s.db) && Owned(s.db, slug, id, until) && request in s.pending && !Waits(s, request, slug)
    ensures var next := Inserted(s.db, s.pending[request]);
            Owned(next, slug, id, until) && Stay(s.db, next)
  {
    var p := s.pending[request];
    if p.workspace.state.slug != slug { InsertKeeps(s.db, p.id, p.workspace, slug, id, until); }
  }

  lemma EventKeeps(s: Service, event: Event, slug: string, id: Id, until: Time)
    requires Constrained(s.db) && Owned(s.db, slug, id, until) && NoneWaits(s, slug)
    requires After(s, event).db.now < until
    ensures Owned(After(s, event).db, slug, id, until) && NoneWaits(After(s, event), slug)
  {
    match event
    case Whole(step) =>
      NextKeeps(s.db, step, slug, id, until);
      NextStay(s.db, step);
      StillNotWaiting(s, s.(db := Next(s.db, step)), slug);
    case Choose(_, step) =>
      ChosenIsOther(s.db, step, slug, id, until);
      StillNotWaiting(s, After(s, event), slug);
    case InsertChosen(request) =>
      if request in s.pending {
        InsertedKeeps(s, request, slug, id, until);
        StillNotWaiting(s, Service(Inserted(s.db, s.pending[request]), s.pending - {request}), slug);
      }
  }

  lemma {:induction false} AfterAllTime(s: Service, events: seq<Event>)
    ensures s.db.now <= AfterAll(s, events).db.now
    decreases |events|
  {
    if events != [] {
      if events[0].Whole? { S.NextTime(s.db, events[0].step); }
      AfterAllTime(After(s, events[0]), events[1..]);
    }
  }

  lemma {:induction false} AfterAllKeeps(s: Service, events: seq<Event>, slug: string, id: Id, until: Time)
    requires Constrained(s.db) && Owned(s.db, slug, id, until) && NoneWaits(s, slug)
    requires AfterAll(s, events).db.now < until
    ensures Owned(AfterAll(s, events).db, slug, id, until)
    decreases |events|
  {
    if events != [] {
      AfterAllTime(After(s, events[0]), events[1..]);
      CurrentUnique(s, [events[0]]);
      assert AfterAll(s, [events[0]]) == After(s, events[0]);
      EventKeeps(s, events[0], slug, id, until);
      AfterAllKeeps(After(s, events[0]), events[1..], slug, id, until);
    }
  }

  /** The slug leads to the workspace alone after any further events until then. */
  ghost predicate StaysOwn(s: Service, slug: string, id: Id, until: Time) {
    forall events | AfterAll(s, events).db.now < until :: Resolve(AfterAll(s, events).db, slug) == {id}
  }

  lemma UpdateLeaves(db: Db, other: Id, next: WorkspaceState, actor: Id, member: bool, id: Id)
    requires Constrained(db) && id in db.workspaces && other in db.workspaces
    ensures var u := Update(db, other, next, actor, member).0;
            var slug := db.workspaces[id].state.slug;
            && id in u.workspaces
            && (u.workspaces[id].state.slug != slug ==>
                  Owned(u, slug, id, db.now + ALIAS_LIFE) && !IsCurrent(u, slug))
  {
    var u := Update(db, other, next, actor, member).0;
    var slug := db.workspaces[id].state.slug;
    if u.workspaces[id].state.slug != slug {
      assert id in Resolve(u, slug);
      assert forall x | x in Resolve(u, slug) :: x == id;
    }
  }

  lemma LeavingOwns(db: Db, leave: Step, id: Id)
    requires Constrained(db) && id in db.workspaces
    ensures var u := Next(db, leave);
            var slug := db.workspaces[id].state.slug;
            && id in u.workspaces
            && (u.workspaces[id].state.slug != slug ==>
                  Owned(u, slug, id, db.now + ALIAS_LIFE) && !IsCurrent(u, slug))
  {
    match leave
    case Tick(_) =>
    case Create(_, _, _, _, _, _) =>
    case EnsurePersonal(_, _, _, _, _) =>
    case _ =>
      var other, next, actor, member := EndsInUpdate(db, leave);
      if next.Some? { UpdateLeaves(db, other, next.value, actor, member, id); }
  }

  lemma WaitingTakes(s: Service, request: Id, slug: string)
    requires Waits(s, request, slug) && !IsCurrent(s.db, slug)
    ensures var p := s.pending[request];
            var t := AfterAll(s, [InsertChosen(request)]);
            p.id in t.db.workspaces && t.db.workspaces[p.id].state.slug == slug && t.db.now == s.db.now
  {
    assert AfterAll(s, [InsertChosen(request)]) == After(s, InsertChosen(request));
  }

  /** A slug that leads to the workspace by an alias alone stays its own exactly when no create waits for it. */
  lemma StaysExactly(s: Service, slug: string, id: Id, until: Time)
    requires Constrained(s.db) && Owned(s.db, slug, id, until) && !IsCurrent(s.db, slug)
    ensures StaysOwn(s, slug, id, until) <==> NoneWaits(s, slug)
  {
    if NoneWaits(s, slug) {
      forall events | AfterAll(s, events).db.now < until ensures Resolve(AfterAll(s, events).db, slug) == {id} {
        AfterAllKeeps(s, events, slug, id, until);
      }
    } else {
      var request :| request in s.pending && Waits(s, request, slug);
      WaitingTakes(s, request, slug);
      assert s.pending[request].id in Resolve(AfterAll(s, [InsertChosen(request)]).db, slug);
    }
  }

  /** If the request makes the workspace leave its slug, the slug stays its own for 90 days exactly when no create is
      on its way that chose the slug before. */
  ghost predicate LeftStaysExactly(s: Service, leave: Step, id: Id)
    requires id in s.db.workspaces
  {
    var slug := s.db.workspaces[id].state.slug;
    var left := After(s, Whole(leave));
    && id in left.db.workspaces
    && (left.db.workspaces[id].state.slug != slug ==>
          (StaysOwn(left, slug, id, s.db.now + 90 * DAY) <==> NoneWaits(left, slug)))
  }

  lemma LeavingStays(s: Service, leave: Step, id: Id)
    requires Constrained(s.db) && id in s.db.workspaces
    ensures LeftStaysExactly(s, leave, id)
  {
    var slug := s.db.workspaces[id].state.slug;
    var left := s.(db := Next(s.db, leave));
    LeavingOwns(s.db, leave, id);
    NextKeepsConstraints(s.db, leave);
    if left.db.workspaces[id].state.slug != slug {
      StaysExactly(left, slug, id, s.db.now + ALIAS_LIFE);
    }
  }

  /** So it is in any state reached by requests and halves of creates. */
  lemma LeftSlugStaysExactly(start: Time, before: seq<Event>, leave: Step, id: Id)
    requires id in AfterAll(Service(Empty(start), map[]), before).db.workspaces
    ensures LeftStaysExactly(AfterAll(Service(Empty(start), map[]), before), leave, id)
  {
    var empty := Service(Empty(start), map[]);
    CurrentUnique(empty, before);
    LeavingStays(AfterAll(empty, before), leave, id);
  }

  // ---- A slug that goes to two ----

  function Named(id: Id, slug: string): Step {
    Create(id, id, "", Some(slug), "", "AA")
  }

  function Readdress(slug: string): Step {
    Edit(0, 0, true, 1, ChangeSet(None, Some(slug), None, None))
  }

  /** While a create is between its halves, another workspace takes its slug and leaves it. */
  function Race(slug: string, other: string): seq<Event> {
    [Choose(0, Named(1, slug))] + ([Whole(Named(0, slug))] + ([Whole(Readdress(other))] + ([InsertChosen(0)] + [])))
  }

  lemma AfterCons(s: Service, event: Event, rest: seq<Event>)
    ensures AfterAll(s, [event] + rest) == AfterAll(After(s, event), rest)
  {
    assert ([event] + rest)[1..] == rest;
  }

  function New(id: Id, slug: string): Workspace {
    NewWorkspace("", slug, "AA", id, None)
  }

  lemma CreateNamed(db: Db, step: Step, id: Id, slug: string)
    requires db.workspaces == map[] && db.aliases == map[] && Slugs.Validate(slug).None? && step == Named(id, slug)
    ensures Chosen(db, step) == Some(Pending(id, New(id, slug)))
    ensures Next(db, step) == db.(workspaces := map[id := New(id, slug)])
  {
    assert !IsSlugTaken(db, slug);
  }

  lemma ReaddressLeaves(db: Db, step: Step, slug: string, other: string)
    requires db.workspaces == map[0 := New(0, slug)] && db.aliases == map[] && db.log == []
    requires Slugs.Validate(other).None? && slug != other && step == Readdress(other)
    ensures var next := Next(db, step);
            && next.workspaces.Keys == {0} && next.workspaces[0].state.slug == other
            && next.aliases == map[slug := Alias(0, db.now + ALIAS_LIFE)] && next.now == db.now
  {
    assert Conflicts(db.log, 0, 1, SentFields(step.change)) == map[];
    assert !IsSlugTaken(db, other);
    S.SlugDiffers(db.workspaces[0].state, EditedState(db.workspaces[0].state, step.change));
  }

  lemma RaceShares(start: Time, slug: string, other: string)
    requires Slugs.Validate(slug).None? && Slugs.Validate(other).None? && slug != other
    ensures Resolve(AfterAll(Service(Empty(start), map[]), Race(slug, other)).db, slug) == {0, 1}
  {
    var s := Service(Empty(start), map[]);
    var first, second, third, last := Named(1, slug), Named(0, slug), Readdress(other), InsertChosen(0);
    AfterCons(s, Choose(0, first), [Whole(second)] + ([Whole(third)] + ([last] + [])));
    CreateNamed(s.db, first, 1, slug);
    var chosen := s.(pending := map[0 := Pending(1, New(1, slug))]);
    AfterCons(chosen, Whole(second), [Whole(third)] + ([last] + []));
    CreateNamed(s.db, second, 0, slug);
    var taken := chosen.(db := s.db.(workspaces := map[0 := New(0, slug)]));
    AfterCons(taken, Whole(third), [last] + []);
    ReaddressLeaves(taken.db, third, slug, other);
    AfterCons(taken.(db := Next(taken.db, third)), last, []);
  }
}
