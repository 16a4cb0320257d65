/** Addresses over time: a slug leads to at most one workspace, and the one a workspace leaves stays its
    own for 90 days. */
module SlugSafety {
  import opened Base
  import opened ChangeLog
  import Slugs
  import D = Decimal
  import opened WorkspaceSteps

  ghost predicate SlugsUnique(db: Db) {
    forall a, b {:trigger db.workspaces[a].state.slug, db.workspaces[b].state.slug}
      | a in db.workspaces && b in db.workspaces && a != b ::
      db.workspaces[a].state.slug != db.workspaces[b].state.slug
  }

  /** A live alias is of a slug nobody has now. */
  ghost predicate AliasesApart(db: Db) {
    forall slug, id | slug in db.aliases && db.aliases[slug].expiresAt > db.now && id in db.workspaces ::
      db.workspaces[id].state.slug != slug
  }

  /** The foreign key of an alias. */
  ghost predicate AliasesOfWorkspaces(db: Db) {
    forall slug | slug in db.aliases :: db.aliases[slug].workspace in db.workspaces
  }

  ghost predicate Inv(db: Db) {
    SlugsUnique(db) && AliasesApart(db) && AliasesOfWorkspaces(db)
  }

  /** A generated slug is nobody's, now or by any alias. */
  lemma GeneratedIsFree(db: Db, ascii: string)
    ensures !IsCurrent(db, GeneratedSlug(db, ascii)) && GeneratedSlug(db, ascii) !in db.aliases
  {
    var base := Slugs.FromName(ascii);
    var slug := GeneratedSlug(db, ascii);
    SimilarCandidate(base, slug, SimilarSlugs(db, base));
    assert slug !in SimilarSlugs(db, base);
  }

  /** It is never validated. It is valid exactly while the base, or a number that leaves it at most 32 characters long,
      is free of workspaces and aliases. */
  lemma GeneratedIsValid(db: Db, ascii: string)
    ensures var base := Slugs.FromName(ascii);
            var similar := SimilarSlugs(db, base);
            && (Slugs.Validate(GeneratedSlug(db, ascii)).None?
                <==> base !in similar || Slugs.HasFreeNumber(base, similar))
            && (|similar| <= 998 ==> Slugs.Validate(GeneratedSlug(db, ascii)).None?)
  {
    var similar := SimilarSlugs(db, Slugs.FromName(ascii));
    Slugs.AvailableValid(ascii, similar);
    if |similar| <= 998 { Slugs.FewAreValid(ascii, similar); }
  }

  lemma SimilarCandidate(base: string, slug: string, existing: set<string>)
    requires Slugs.IsAvailable(base, existing, slug)
    ensures Similar(base, slug) && slug !in existing
  {
    if base in existing {
      var k: nat :| Slugs.FirstFreeAt(base, existing, 2, slug, k);
      assert slug[|base| + 1..] == D.DigitsOf(k);
      assert slug[..|base| + 1] == base + "-";
    }
  }

  lemma InsertKeepsInv(db: Db, id: Id, workspace: Workspace)
    requires Inv(db) && !LiveAlias(db, workspace.state.slug)
    ensures Inv(Insert(db, id, workspace).0)
  {
  }

  lemma UpdateKeepsInv(db: Db, id: Id, next: WorkspaceState, actor: Id, member: bool)
    requires Inv(db) && id in db.workspaces
    ensures Inv(Update(db, id, next, actor, member).0)
  {
    var u := Update(db, id, next, actor, member).0;
    var before := db.workspaces[id].state.slug;
    if u != db {
      forall slug, w | slug in u.aliases && u.aliases[slug].expiresAt > u.now && w in u.workspaces
        ensures u.workspaces[w].state.slug != slug
      {
        if next.slug != before && slug == before && w != id {
          assert db.workspaces[w].state.slug != before;
        }
      }
    }
  }

  lemma NextKeepsInv(db: Db, step: Step)
    requires Inv(db)
    ensures Inv(Next(db, step))
  {
    match step
    case Tick(_) =>
    case Create(id, actor, name, slug, ascii, taskPrefix) =>
      GeneratedIsFree(db, ascii);
      if slug.None? || !IsSlugTaken(db, slug.value) {
        InsertKeepsInv(db, id, NewWorkspace(name, if slug.Some? then slug.value else GeneratedSlug(db, ascii),
            taskPrefix, actor, None));
      }
    case EnsurePersonal(actor, newId, name, ascii, taskPrefix) =>
      GeneratedIsFree(db, ascii);
      InsertKeepsInv(db, newId, NewWorkspace(name, GeneratedSlug(db, ascii), taskPrefix, actor, Some(actor)));
    case _ =>
      var id, next, actor, member := EndsInUpdate(db, step);
      if next.Some? { UpdateKeepsInv(db, id, next.value, actor, member); }
  }

  lemma {:induction false} RunKeepsInv(db: Db, steps: seq<Step>)
    requires Inv(db)
    ensures Inv(Run(db, steps))
    decreases |steps|
  {
    if steps != [] {
      NextKeepsInv(db, steps[0]);
      RunKeepsInv(Next(db, steps[0]), steps[1..]);
    }
  }

  /** In every reachable state an address leads to at most one workspace, and is taken exactly when it
      leads to one. */
  lemma ResolvesToOne(start: Time, steps: seq<Step>, slug: string)
    ensures var db := Run(Empty(start), steps);
            && (forall a, b | a in Resolve(db, slug) && b in Resolve(db, slug) :: a == b)
            && (IsSlugTaken(db, slug) <==> Resolve(db, slug) != {})
  {
    RunKeepsInv(Empty(start), steps);
    var db := Run(Empty(start), steps);
    if IsCurrent(db, slug) {
      var id :| id in db.workspaces && db.workspaces[id].state.slug == slug;
      assert id in Resolve(db, slug);
    } else if LiveAlias(db, slug) {
      assert db.aliases[slug].workspace in Resolve(db, slug);
    }
    if Resolve(db, slug) != {} {
      var id :| id in Resolve(db, slug);
    }
  }

  // ---- An address that was left ----

  /** The slug is the workspace's, now or by an alias that lasts to `until` at least. */
  ghost predicate Held(db: Db, slug: string, id: Id, until: Time) {
    && id in db.workspaces
    && (db.workspaces[id].state.slug == slug
        || (slug in db.aliases && db.aliases[slug].workspace == id && db.aliases[slug].expiresAt >= until))
  }

  lemma UpdateHolds(db: Db, other: Id, next: WorkspaceState, actor: Id, member: bool, slug: string, id: Id, until: Time)
    requires Inv(db) && Held(db, slug, id, until) && db.now < until <= db.now + ALIAS_LIFE
    requires other in db.workspaces
    ensures var u := Update(db, other, next, actor, member).0;
            Held(u, slug, id, until) && u.now == db.now
  {
    if db.workspaces[id].state.slug != slug {
      assert LiveAlias(db, slug);
      if other != id && next.slug == slug && db.workspaces[other].state.slug != slug {
        assert IsSlugTaken(db, slug) && !IsOwnSlug(db, member, other, slug);
      }
    } else if other != id {
      assert db.workspaces[other].state.slug != slug;
    }
  }

  lemma NextHolds(db: Db, step: Step, slug: string, id: Id, until: Time)
    requires Inv(db) && Held(db, slug, id, until) && until <= db.now + ALIAS_LIFE && Next(db, step).now < until
    ensures Held(Next(db, step), slug, id, until) && db.now <= Next(db, step).now
  {
    match step
    case Tick(_) =>
    case Create(_, _, _, _, _, _) =>
    case EnsurePersonal(_, _, _, _, _) =>
    case _ =>
      var other, next, actor, member := EndsInUpdate(db, step);
      if next.Some? && db.now < until {
        UpdateHolds(db, other, next.value, actor, member, slug, id, until);
      }
  }

  lemma NextTime(db: Db, step: Step)
    ensures db.now <= Next(db, step).now
  {
  }

  lemma {:induction false} RunTime(db: Db, steps: seq<Step>)
    ensures db.now <= Run(db, steps).now
    decreases |steps|
  {
    if steps != [] {
      NextTime(db, steps[0]);
      RunTime(Next(db, steps[0]), steps[1..]);
    }
  }

  lemma {:induction false} RunHolds(db: Db, steps: seq<Step>, slug: string, id: Id, until: Time)
    requires Inv(db) && Held(db, slug, id, until) && until <= db.now + ALIAS_LIFE && Run(db, steps).now < until
    ensures Held(Run(db, steps), slug, id, until)
    decreases |steps|
  {
    if steps != [] {
      RunTime(Next(db, steps[0]), steps[1..]);
      NextKeepsInv(db, steps[0]);
      NextHolds(db, steps[0], slug, id, until);
      RunHolds(Next(db, steps[0]), steps[1..], slug, id, until);
    }
  }

  lemma UpdateLeaves(db: Db, other: Id, next: WorkspaceState, actor: Id, member: bool, id: Id)
    requires Inv(db) && id in db.workspaces && other in db.workspaces
    ensures var u := Update(db, other, next, actor, member).0;
            && u.now == db.now && id in u.workspaces
            && (u.workspaces[id].state.slug != db.workspaces[id].state.slug ==>
                  Held(u, db.workspaces[id].state.slug, id, db.now + ALIAS_LIFE))
  {
  }

  /** A workspace that leaves a slug has an alias of it from then on. */
  lemma LeavingHolds(db: Db, leave: Step, id: Id)
    requires Inv(db) && id in db.workspaces
    ensures id in Next(db, leave).workspaces
    ensures Next(db, leave).workspaces[id].state.slug != db.workspaces[id].state.slug ==>
              && Next(db, leave).now == db.now
              && Held(Next(db, leave), db.workspaces[id].state.slug, id, db.now + ALIAS_LIFE)
  {
    match leave
    case Tick(_) =>
    case Create(_, _, _, _, _, _) =>
    case EnsurePersonal(_, _, _, _, _) =>
    case _ =>
      var other, next, actor, member := EndsInUpdate(db, leave);
      if next.Some? { UpdateLeaves(db, other, next.value, actor, member, id); }
  }

  /** After a workspace leaves a slug, the slug leads to that workspace alone in every later state for 90
      days, whatever anyone does: nobody else can take it. */
  lemma LeftSlugStays(db: Db, leave: Step, id: Id, steps: seq<Step>)
    requires Inv(db) && id in db.workspaces && id in Next(db, leave).workspaces
    requires Next(db, leave).workspaces[id].state.slug != db.workspaces[id].state.slug
    requires Run(Next(db, leave), steps).now < db.now + 90 * DAY
    ensures Resolve(Run(Next(db, leave), steps), db.workspaces[id].state.slug) == {id}
  {
    var slug := db.workspaces[id].state.slug;
    var until := db.now + ALIAS_LIFE;
    LeavingHolds(db, leave, id);
    NextKeepsInv(db, leave);
    RunHolds(Next(db, leave), steps, slug, id, until);
    RunKeepsInv(Next(db, leave), steps);
    var after := Run(Next(db, leave), steps);
    forall other | other in Resolve(after, slug) ensures other == id {}
    assert id in Resolve(after, slug);
  }

  /** From `b` to `c` the workspace went from its slug to another, or kept it: both lead to it and to nobody else,
      and every other slug leads where it did. */
  ghost predicate Readdressed(b: Db, c: Db, id: Id)
    requires id in b.workspaces && id in c.workspaces
  {
    forall slug ::
      Resolve(c, slug) == if slug == b.workspaces[id].state.slug || slug == c.workspaces[id].state.slug
                          then {id} else Resolve(b, slug)
  }

  lemma OwnsItsSlug(db: Db, id: Id)
    requires Inv(db) && id in db.workspaces
    ensures Resolve(db, db.workspaces[id].state.slug) == {id}
  {
    var slug := db.workspaces[id].state.slug;
    assert id in Resolve(db, slug);
    assert forall other | other in Resolve(db, slug) :: other == id;
  }

  /** An update is refused exactly when it asks for another slug that leads to someone else, or to the workspace itself
      for a user who is no member of it. */
  lemma UpdateRefused(db: Db, id: Id, next: WorkspaceState, actor: Id, member: bool)
    requires Inv(db) && id in db.workspaces
    ensures Update(db, id, next, actor, member).1.Refused?
       <==> next.slug != db.workspaces[id].state.slug && !(Resolve(db, next.slug) <= if member then {id} else {})
  {
    var slug := next.slug;
    if slug == db.workspaces[id].state.slug {
      OwnsItsSlug(db, id);
    } else {
      SlugDiffers(db.workspaces[id].state, next);
      if IsCurrent(db, slug) {
        var other :| other in db.workspaces && db.workspaces[other].state.slug == slug;
        assert other in Resolve(db, slug);
      } else if LiveAlias(db, slug) {
        assert db.aliases[slug].workspace in Resolve(db, slug);
      }
    }
  }

  lemma OtherSlugSame(db: Db, id: Id, next: WorkspaceState, actor: Id, member: bool, slug: string)
    requires id in db.workspaces && slug != db.workspaces[id].state.slug && slug != next.slug
    ensures Resolve(Update(db, id, next, actor, member).0, slug) == Resolve(db, slug)
  {
    var c := Update(db, id, next, actor, member).0;
    assert LiveAlias(c, slug) <==> LiveAlias(db, slug);
    assert slug in db.aliases ==> c.aliases[slug] == db.aliases[slug];
  }

  /** The slug that was left leads to the workspace that left it. */
  lemma LeftSlugLeads(db: Db, id: Id, next: WorkspaceState, actor: Id, member: bool)
    requires Inv(db) && id in db.workspaces && Update(db, id, next, actor, member).0 != db
    ensures Resolve(Update(db, id, next, actor, member).0, db.workspaces[id].state.slug) == {id}
  {
    var c := Update(db, id, next, actor, member).0;
    var slug := db.workspaces[id].state.slug;
    assert id in Resolve(c, slug);
    assert forall other | other in Resolve(c, slug) :: other == id;
  }

  lemma UpdateReaddresses(db: Db, id: Id, next: WorkspaceState, actor: Id, member: bool)
    requires Inv(db) && id in db.workspaces
    ensures Readdressed(db, Update(db, id, next, actor, member).0, id)
  {
    var c := Update(db, id, next, actor, member).0;
    OwnsItsSlug(db, id);
    if c != db {
      UpdateKeepsInv(db, id, next, actor, member);
      OwnsItsSlug(c, id);
      LeftSlugLeads(db, id, next, actor, member);
      forall slug | slug != db.workspaces[id].state.slug && slug != next.slug
        ensures Resolve(c, slug) == Resolve(db, slug)
      {
        OtherSlugSame(db, id, next, actor, member, slug);
      }
    }
  }

  lemma UpdateRefuses(db: Db, id: Id, next: WorkspaceState, actor: Id, member: bool, slug: string, other: Id)
    requires id in db.workspaces && IsSlugTaken(db, slug) && other !in Resolve(db, slug)
    ensures var u := Update(db, id, next, actor, member).0;
            other in u.workspaces ==> u.workspaces[other].state.slug != slug
  {
  }

  lemma InsertRefuses(db: Db, id: Id, workspace: Workspace, slug: string, other: Id)
    requires other !in Resolve(db, slug) && workspace.state.slug != slug
    ensures var u := Insert(db, id, workspace).0;
            other in u.workspaces ==> u.workspaces[other].state.slug != slug
  {
  }

  lemma CreateRefuses(db: Db, step: Step, slug: string, other: Id)
    requires IsSlugTaken(db, slug) && other !in Resolve(db, slug) && (step.Create? || step.EnsurePersonal?)
    ensures other in Next(db, step).workspaces ==> Next(db, step).workspaces[other].state.slug != slug
  {
    match step
    case Create(id, actor, name, wanted, ascii, taskPrefix) =>
      GeneratedIsFree(db, ascii);
      if wanted.None? || wanted.value != slug {
        InsertRefuses(db, id, NewWorkspace(name, if wanted.Some? then wanted.value else GeneratedSlug(db, ascii),
            taskPrefix, actor, None), slug, other);
      }
    case EnsurePersonal(actor, newId, name, ascii, taskPrefix) =>
      GeneratedIsFree(db, ascii);
      InsertRefuses(db, newId, NewWorkspace(name, GeneratedSlug(db, ascii), taskPrefix, actor, Some(actor)),
                    slug, other);
  }

  /** While a slug leads to a workspace, no request gives it to another one. */
  lemma TakenIsRefused(db: Db, step: Step, slug: string, id: Id, other: Id)
    requires Inv(db) && Resolve(db, slug) == {id} && other != id
    ensures other in Next(db, step).workspaces ==> Next(db, step).workspaces[other].state.slug != slug
  {
    assert id in Resolve(db, slug);
    assert other !in Resolve(db, slug);
    match step
    case Tick(_) =>
    case Create(_, _, _, _, _, _) => CreateRefuses(db, step, slug, other);
    case EnsurePersonal(_, _, _, _, _) => CreateRefuses(db, step, slug, other);
    case _ =>
      var edited, next, actor, member := EndsInUpdate(db, step);
      if next.Some? { UpdateRefuses(db, edited, next.value, actor, member, slug, other); }
  }

  lemma SlugDiffers(current: WorkspaceState, next: WorkspaceState)
    requires current.slug != next.slug
    ensures StateDiff(current, next) != []
  {
    assert FIELDS[1] == Slug;
    DiffRecorded(FIELDS, f => current.Get(f), f => next.Get(f), 0, 1, 0, Slug, 0);
  }

  /** A workspace takes back a slug it left while the alias lives. */
  lemma TakesBack(db: Db, id: Id, actor: Id, slug: string)
    requires Inv(db) && id in db.workspaces && Resolve(db, slug) == {id} && db.workspaces[id].state.slug != slug
    ensures var next := db.workspaces[id].state.(slug := slug);
            var (after, outcome) := Update(db, id, next, actor, true);
            && outcome == Done(id)
            && after.workspaces[id].state == next
            && slug !in after.aliases
            && Resolve(after, slug) == {id}
            && Resolve(after, db.workspaces[id].state.slug) == {id}
  {
    var current := db.workspaces[id].state;
    var next := current.(slug := slug);
    assert id in Resolve(db, slug);
    SlugDiffers(current, next);
    UpdateKeepsInv(db, id, next, actor, true);
    var after := Update(db, id, next, actor, true).0;
    assert forall other | other in db.workspaces && db.workspaces[other].state.slug == slug ::
        other in Resolve(db, slug);
    assert id in Resolve(after, slug) && id in Resolve(after, current.slug);
  }

  /** No workspace goes, and none changes its owner. */
  ghost predicate OwnersStay(b: Db, c: Db) {
    forall id | id in b.workspaces :: id in c.workspaces && c.workspaces[id].owner == b.workspaces[id].owner
  }

  lemma {:induction false} RunKeepsOwners(db: Db, steps: seq<Step>)
    ensures OwnersStay(db, Run(db, steps))
    decreases |steps|
  {
    if steps != [] {
      NextKeepsOwners(db, steps[0]);
      RunKeepsOwners(Next(db, steps[0]), steps[1..]);
    }
  }

  lemma NextKeepsOwners(db: Db, step: Step)
    ensures OwnersStay(db, Next(db, step))
  {
    if step.Edit? || step.SoftDelete? || step.Restore? {
      var id, next, actor, member := EndsInUpdate(db, step);
    }
  }

  /** The same create sent again, after any requests: refused when it sends a slug that is taken by then, even by the
      workspace it made; otherwise answered with the workspace exactly while that is not deleted. Nothing is
      written. */
  lemma RepeatedCreate(db: Db, id: Id, actor: Id, name: string, slug: Option<string>, ascii: string, taskPrefix: string,
                       steps: seq<Step>)
    requires CreateStep(db, id, actor, name, slug, ascii, taskPrefix).1 == Created(id)
    ensures var later := Run(CreateStep(db, id, actor, name, slug, ascii, taskPrefix).0, steps);
            && id in later.workspaces
            && CreateStep(later, id, actor, name, slug, ascii, taskPrefix)
               == (later,
                   if slug.Some? && IsSlugTaken(later, slug.value) then Refused(SlugTaken)
                   else if later.workspaces[id].state.deletedAt.None? then Existed(id)
                   else Refused(IdTaken))
  {
    var made := CreateStep(db, id, actor, name, slug, ascii, taskPrefix).0;
    assert id in made.workspaces && made.workspaces[id].owner == actor;
    RunKeepsOwners(made, steps);
  }

  /** Sent again at once with a slug of its own, it is refused: the workspace it made has that slug. */
  lemma RepeatedAtOnce(db: Db, id: Id, actor: Id, name: string, slug: string, ascii: string, taskPrefix: string)
    requires CreateStep(db, id, actor, name, Some(slug), ascii, taskPrefix).1 == Created(id)
    ensures var made := CreateStep(db, id, actor, name, Some(slug), ascii, taskPrefix).0;
            CreateStep(made, id, actor, name, Some(slug), ascii, taskPrefix) == (made, Refused(SlugTaken))
  {
    RepeatedCreate(db, id, actor, name, Some(slug), ascii, taskPrefix, []);
    var made := CreateStep(db, id, actor, name, Some(slug), ascii, taskPrefix).0;
    assert made.workspaces[id].state.slug == slug && IsCurrent(made, slug);
    assert Run(made, []) == made;
  }

  // ---- One name too often ----

  /** The first `n` workspaces of a name of 28 letters. */
  function SameNames(n: nat): seq<Step> {
    if n == 0 then [] else SameNames(n - 1) + [SameName(n - 1)]
  }

  function SameName(id: Id): Step {
    Create(id, 0, Slugs.LongName(), None, Slugs.LongName(), "AA")
  }

  lemma {:induction false} RunSnoc(db: Db, steps: seq<Step>, last: Step)
    ensures Run(db, steps + [last]) == Next(Run(db, steps), last)
    decreases |steps|
  {
    if steps == [] {
      assert [] + [last] == [last] && [last][1..] == [];
      assert Run(Next(db, last), []) == Next(db, last);
    } else {
      assert (steps + [last])[1..] == steps[1..] + [last];
      RunSnoc(Next(db, steps[0]), steps[1..], last);
    }
  }

  /** The workspaces have the name's slug and its candidates up to the `n`th. */
  ghost predicate Numbered(db: Db, n: nat) {
    && db.aliases == map[]
    && (forall id: Id :: id in db.workspaces <==> id < n)
    && (forall id | id in db.workspaces :: db.workspaces[id].state.slug == SlugAt(id))
  }

  function SlugAt(id: Id): string {
    if id == 0 then Slugs.LongName() else Slugs.Candidate(Slugs.LongName(), id + 1)
  }

  lemma SlugAtSimilar(id: Id)
    ensures Similar(Slugs.LongName(), SlugAt(id))
  {
    if id > 0 {
      var base, slug := Slugs.LongName(), SlugAt(id);
      assert slug[..|base| + 1] == base + "-" && slug[|base| + 1..] == D.DigitsOf(id + 1);
    }
  }

  ghost predicate InFamily(slug: string, n: nat) {
    exists id: Id :: id < n && slug == SlugAt(id)
  }

  lemma FamilyIsTried(n: nat, slug: string)
    requires n > 0
    ensures slug in Slugs.Tried(Slugs.LongName(), n + 1) <==> InFamily(slug, n)
  {
    var base := Slugs.LongName();
    if slug == base { assert slug == SlugAt(0); }
    if j: nat :| 2 <= j < n + 1 && slug == Slugs.Candidate(base, j) { assert slug == SlugAt(j - 1); }
  }

  lemma NumberedSimilar(db: Db, n: nat)
    requires Numbered(db, n)
    ensures SimilarSlugs(db, Slugs.LongName()) == if n == 0 then {} else Slugs.Tried(Slugs.LongName(), n + 1)
  {
    var base := Slugs.LongName();
    forall id | id in db.workspaces ensures Similar(base, db.workspaces[id].state.slug) { SlugAtSimilar(id); }
    forall slug ensures slug in SimilarSlugs(db, base) <==> InFamily(slug, n) {
      if id: Id :| id < n && slug == SlugAt(id) {
        assert id in db.workspaces && db.workspaces[id].state.slug == slug;
      }
    }
    if n > 0 {
      forall slug ensures slug in Slugs.Tried(base, n + 1) <==> slug in SimilarSlugs(db, base) {
        FamilyIsTried(n, slug);
      }
    }
  }

  lemma NumberedGenerates(db: Db, n: nat)
    requires Numbered(db, n)
    ensures GeneratedSlug(db, Slugs.LongName()) == SlugAt(n)
  {
    Slugs.LongNameStays();
    NumberedSimilar(db, n);
    if n > 0 { Slugs.NextCandidate(Slugs.LongName(), n + 1); }
  }

  lemma NumberedNext(db: Db, n: nat, step: Step)
    requires Numbered(db, n) && step == SameName(n)
    ensures Numbered(Next(db, step), n + 1) && Apply(db, step).1 == Created(n)
    ensures n in Next(db, step).workspaces && Next(db, step).workspaces[n].state.slug == SlugAt(n)
  {
    GeneratedIsFree(db, Slugs.LongName());
    NumberedGenerates(db, n);
  }

  lemma OneMoreNumbered(start: Time, n: nat, steps: seq<Step>, step: Step)
    requires Numbered(Run(Empty(start), steps), n) && step == SameName(n)
    ensures Numbered(Run(Empty(start), steps + [step]), n + 1)
  {
    RunSnoc(Empty(start), steps, step);
    NumberedNext(Run(Empty(start), steps), n, step);
  }

  lemma {:induction false} AllNumbered(start: Time, n: nat)
    ensures Numbered(Run(Empty(start), SameNames(n)), n)
  {
    if n == 0 {
      assert Run(Empty(start), []) == Empty(start);
    } else {
      AllNumbered(start, n - 1);
      OneMoreNumbered(start, n - 1, SameNames(n - 1), SameName(n - 1));
    }
  }

  /** The thousandth workspace of such a name is created, with a slug the validator refuses. */
  lemma ThousandthIsTooLong(start: Time, step: Step)
    requires step == SameName(999)
    ensures var db := Run(Empty(start), SameNames(999));
            && Apply(db, step).1 == Created(999)
            && 999 in Next(db, step).workspaces
            && Slugs.Validate(Next(db, step).workspaces[999].state.slug) == Some(Slugs.ValueTooLong)
  {
    AllNumbered(start, 999);
    NumberedNext(Run(Empty(start), SameNames(999)), 999, step);
    D.DigitsBelow(1000, 3);
    assert D.Power10(3) == 10 * (10 * (10 * D.Power10(0)));
  }
}
