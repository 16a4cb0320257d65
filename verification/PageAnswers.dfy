/** How exactly each request on a page is answered, and what a created page holds: when it is done, when there is
    nothing to do, and with what it is refused. */
module PageAnswers {
  import opened Base
  import opened ChangeLog
  import opened Forest
  import opened PageSteps
  import opened PageTree
  import opened PageOrder
  import opened PageDepth
  import PageHistory
  import H = History

  /** A live page of the workspace. */
  ghost predicate IsHere(t: Table, workspace: Id, id: Id) {
    id in t && t[id].workspace == workspace && t[id].deletedAt.None?
  }

  // ---- Create ----

  /** A live page of the workspace less than twelve deep, or the root. */
  ghost predicate MayHold(t: Table, workspace: Id, parent: Option<Id>)
    requires Rooted(t)
  {
    parent.Some? ==> IsHere(t, workspace, parent.value) && Depth(t, parent.value) < 12
  }

  ghost predicate Used(t: Table, shortId: string) {
    exists x :: x in t && t[x].shortId == shortId
  }

  /** The `k`th of the short ids made here is the first that nobody has, and one of three. */
  ghost predicate FirstUnused(t: Table, generated: seq<string>, k: nat) {
    k < |generated| && k < 3 && !Used(t, generated[k]) && forall j | 0 <= j < k :: Used(t, generated[j])
  }

  ghost predicate HasShortId(t: Table, request: CreateRequest, generated: seq<string>) {
    match request.shortId
    case Some(shortId) => !Used(t, shortId)
    case None => exists k: nat :: FirstUnused(t, generated, k)
  }

  lemma {:induction false} FirstFreeIs(t: Table, candidates: seq<string>, k: nat)
    requires k < |candidates| && !Used(t, candidates[k]) && forall j | 0 <= j < k :: Used(t, candidates[j])
    ensures FirstFree(t, candidates) == Some(candidates[k])
  {
    if k > 0 {
      assert Used(t, candidates[0]);
      FirstFreeIs(t, candidates[1..], k - 1);
    }
  }

  lemma {:induction false} NoneFree(t: Table, candidates: seq<string>)
    requires forall j | 0 <= j < |candidates| :: Used(t, candidates[j])
    ensures FirstFree(t, candidates).None?
  {
    if candidates != [] {
      assert Used(t, candidates[0]);
      NoneFree(t, candidates[1..]);
    }
  }

  lemma {:induction false} SomeFirst(t: Table, candidates: seq<string>) returns (k: nat)
    ensures forall j | 0 <= j < k :: j < |candidates| && Used(t, candidates[j])
    ensures k <= |candidates| && (k < |candidates| ==> !Used(t, candidates[k]))
  {
    k := 0;
    while k < |candidates| && Used(t, candidates[k])
      invariant k <= |candidates| && forall j | 0 <= j < k :: Used(t, candidates[j])
    {
      k := k + 1;
    }
  }

  /** The short id a page gets: the one sent, or the first unused one of the first three made here. */
  lemma ShortIdIs(t: Table, request: CreateRequest, generated: seq<string>)
    ensures ShortIdFor(t, request, generated).Some? <==> HasShortId(t, request, generated)
    ensures var shortId := ShortIdFor(t, request, generated);
            shortId.Some? ==>
              if request.shortId.Some? then shortId == request.shortId
              else exists k: nat :: FirstUnused(t, generated, k) && shortId.value == generated[k]
  {
    if request.shortId.None? {
      var candidates := generated[..Min(SHORT_ID_ATTEMPTS, |generated|)];
      var k := SomeFirst(t, candidates);
      if k < |candidates| {
        FirstFreeIs(t, candidates, k);
        assert FirstUnused(t, generated, k);
      } else {
        NoneFree(t, candidates);
        assert forall j | 0 <= j < |candidates| :: Used(t, generated[j]) by {
          assert forall j | 0 <= j < |candidates| :: candidates[j] == generated[j];
        }
      }
    }
  }

  /** When exactly a page is created, under which id, and how a create is answered or refused otherwise. */
  ghost predicate CreateAnswers(t: Table, workspace: Id, actor: Id, request: CreateRequest, newId: Id,
                                generated: seq<string>, outcome: Outcome)
    requires Rooted(t)
  {
    var id := if request.id.Some? then request.id.value else newId;
    var mine := id in t && t[id].workspace == workspace && t[id].createdBy == actor;
    var held := MayHold(t, workspace, request.parent);
    var asked := (request.id.Some? && id in t) || held;
    var free := id !in t && held && HasShortId(t, request, generated);
    && (outcome == Done(id) <==> free)
    && (outcome.Done? ==> outcome == Done(id))
    && (outcome == Unchanged(id) <==> mine && asked)
    && (outcome == Refused(IdTaken) <==> id in t && !mine && asked)
    && (outcome == Refused(ParentNotFound) <==> !asked && !IsHere(t, workspace, request.parent.value))
    && (outcome == Refused(TooDeep) <==> !asked && IsHere(t, workspace, request.parent.value))
    && (outcome == Refused(ShortIdTaken) <==> id !in t && held && !free && request.shortId.Some?)
    && (outcome == Refused(Internal) <==> id !in t && held && !free && request.shortId.None?)
  }

  lemma CreateAnswer(db: Db, workspace: Id, actor: Id, request: CreateRequest, newId: Id, generated: seq<string>)
    requires Rooted(db.pages)
    ensures CreateAnswers(db.pages, workspace, actor, request, newId, generated,
                          CreateStep(db, workspace, actor, request, newId, generated).1)
  {
    ShortIdIs(db.pages, request, generated);
  }

  /** The page holds what was sent, under the short id sent or made here. */
  ghost predicate IsAsSent(t: Table, page: Page, workspace: Id, actor: Id, request: CreateRequest,
                           generated: seq<string>) {
    && page.workspace == workspace && page.createdBy == actor
    && page.parent == request.parent
    && page.kind == request.kind && page.title == request.title && page.icon == request.icon
    && (if request.shortId.Some? then page.shortId == request.shortId.value
        else exists k: nat :: FirstUnused(t, generated, k) && page.shortId == generated[k])
    && page.version == 1 && page.deletedAt.None? && page.deletedRoot.None?
  }

  /** What a created page holds; the log stays as it is. */
  lemma CreatedHolds(db: Db, workspace: Id, actor: Id, request: CreateRequest, newId: Id, generated: seq<string>)
    requires Rooted(db.pages)
    ensures var (next, outcome) := CreateStep(db, workspace, actor, request, newId, generated);
            outcome.Done? ==>
              && outcome.page in next.pages && next.log == db.log
              && IsAsSent(db.pages, next.pages[outcome.page], workspace, actor, request, generated)
  {
    ShortIdIs(db.pages, request, generated);
  }

  // ---- Move ----

  /** The page is at the index asked for, under that parent. */
  ghost predicate IsAtIndex(t: Table, workspace: Id, id: Id, parent: Option<Id>, index: nat)
    requires id in t
  {
    && parent == t[id].parent
    && var siblings := Children(t, workspace, parent, Some(id));
       Children(t, workspace, parent, None) == InsertAt(siblings, Min(index, |siblings|), id)
  }

  /** Some page of the live subtree would be deeper than twelve. */
  ghost predicate Overflows(t: Table, id: Id, parent: Option<Id>)
    requires Inv(t) && (parent.Some? ==> parent.value in t)
  {
    exists x :: x in Taken(t, id) && ParentDepth(t, parent) + Level(t, id, x) > 12
  }

  lemma OverflowsByHeight(t: Table, id: Id, parent: Option<Id>)
    requires Inv(t) && id in t && t[id].Live() && (parent.Some? ==> parent.value in t)
    ensures Overflows(t, id, parent) <==> ParentDepth(t, parent) + Height(t, id) > MAX_DEPTH
  {
    var height := Height(t, id);
    var x :| x in Taken(t, id) && Level(t, id, x) == height;
    assert forall y | y in Taken(t, id) :: Level(t, id, y) <= height;
  }

  lemma RefusalIs(t: Table, workspace: Id, id: Id, parent: Option<Id>)
    requires Inv(t) && IsHere(t, workspace, id)
    ensures var found := parent.Some? ==> IsHere(t, workspace, parent.value);
            MoveRefusal(t, workspace, id, parent)
            == if !found then Some(ParentNotFound)
               else if parent.Some? && Under(t, id, parent.value) then Some(PageCycle)
               else if Overflows(t, id, parent) then Some(TooDeep) else None
  {
    if parent.Some? ==> IsHere(t, workspace, parent.value) { OverflowsByHeight(t, id, parent); }
  }

  lemma AtIndexIsThere(t: Table, workspace: Id, id: Id, parent: Option<Id>, index: nat)
    requires id in t && AtIndex(t, t, workspace, parent, Some(index), id)
    ensures IsAtIndex(t, workspace, id, parent, index)
  {
    var siblings := Children(t, workspace, parent, Some(id));
    InsertAtHolds(siblings, Min(index, |siblings|), id);
    assert id in Kids(t, workspace, parent, None);
  }

  /** A move that nothing forbids is done or has nothing to do. */
  lemma MovedAnswer(db: Db, workspace: Id, actor: Id, id: Id, parent: Option<Id>, index: nat)
    requires LiveIn(db.pages, workspace, id)
    ensures MoveTo(db, workspace, actor, id, parent, index).1
         == if IsAtIndex(db.pages, workspace, id, parent, index) || LostMove(db.pages, workspace, id, parent, index)
            then Unchanged(id) else Done(id)
  {
    var (next, outcome) := MoveTo(db, workspace, actor, id, parent, index);
    MovePlaces(db, workspace, actor, id, parent, index);
    if IsAtIndex(db.pages, workspace, id, parent, index) {
      StayedPut(db.pages, workspace, id, index);
    } else if !LostMove(db.pages, workspace, id, parent, index) && next == db {
      AtIndexIsThere(db.pages, workspace, id, parent, index);
    }
  }

  /** How exactly a move is answered: refused with the first of these reasons, without effect when the page is at its
      index already or the move is lost, and else done. */
  lemma MoveAnswer(db: Db, workspace: Id, actor: Id, id: Id, parent: Option<Id>, index: nat)
    requires Inv(db.pages)
    ensures var t := db.pages;
            MoveStep(db, workspace, actor, id, parent, index).1
            == if !IsHere(t, workspace, id) then Refused(NotFound)
               else if parent.Some? && !IsHere(t, workspace, parent.value) then Refused(ParentNotFound)
               else if parent.Some? && Under(t, id, parent.value) then Refused(PageCycle)
               else if Overflows(t, id, parent) then Refused(TooDeep)
               else if IsAtIndex(t, workspace, id, parent, index) || LostMove(t, workspace, id, parent, index)
                   then Unchanged(id)
               else Done(id)
  {
    if IsHere(db.pages, workspace, id) {
      RefusalIs(db.pages, workspace, id, parent);
      MovedAnswer(db, workspace, actor, id, parent, index);
    }
  }

  // ---- Delete and restore ----

  lemma DeleteAnswer(db: Db, workspace: Id, actor: Id, id: Id, at: Time)
    requires Inv(db.pages)
    ensures var t := db.pages;
            DeleteStep(db, workspace, actor, id, at).1
            == if id !in t || t[id].workspace != workspace then Refused(NotFound)
               else if IsHere(t, workspace, id) then Done(id) else Unchanged(id)
  {
    DeleteShape(db, workspace, actor, id, at);
  }

  lemma RestoreAnswer(db: Db, workspace: Id, actor: Id, id: Id)
    requires Inv(db.pages)
    ensures var t := db.pages;
            RestoreStep(db, workspace, actor, id).1
            == if id !in t || t[id].workspace != workspace then Refused(NotFound)
               else if IsHere(t, workspace, id) then Unchanged(id)
               else if t[id].deletedRoot == Some(id) then Done(id) else Refused(TrashedWithParent)
  {
    RestoreShape(db, workspace, actor, id);
  }

  // ---- Edits ----

  /** The edit sets this field. */
  predicate Sets(change: ChangeSet, field: Field) {
    match field
    case Title => change.title.Some?
    case Icon => change.icon.Some?
    case Kind => change.kind.Some?
    case Parent => false
    case Position => false
    case DeletedAt => false
  }

  ghost function SetFields(change: ChangeSet): set<Field> {
    set f: Field | Sets(change, f)
  }

  lemma SentAreSet(change: ChangeSet)
    ensures forall f :: f in SentFields(change) <==> f in SetFields(change)
  {
  }

  /** The edit would change the type of a page that has live children or a written body. */
  ghost predicate RetypesFull(t: Table, id: Id, change: ChangeSet, written: bool)
    requires id in t
  {
    && change.kind.Some? && change.kind.value != t[id].kind
    && (written || exists child :: child in t && t[child].parent == Some(id) && t[child].deletedAt.None?)
  }

  /** Everything the edit sets is as it already is. */
  ghost predicate SetsNothingNew(page: Page, change: ChangeSet) {
    && (change.title.Some? ==> change.title.value == page.title)
    && (change.icon.Some? ==> change.icon.value == page.icon)
    && (change.kind.Some? ==> change.kind.value == page.kind)
  }

  predicate SetsAny(change: ChangeSet) {
    change.title.Some? || change.icon.Some? || change.kind.Some?
  }

  /** How exactly an edit is answered. */
  ghost predicate PatchAnswers(db: Db, workspace: Id, id: Id, base: int, change: ChangeSet, written: bool,
                               outcome: Outcome) {
    var t := db.pages;
    if !SetsAny(change) then outcome == Refused(EmptyRequest)
    else if !IsHere(t, workspace, id) then outcome == Refused(NotFound)
    else if base > t[id].version then outcome == Refused(FutureVersion)
    else if Overtaken(db.log, id, base, SetFields(change))
        then outcome.Refused? && outcome.error.EditConflict?
             && Reports(outcome.error.found, db.log, id, base, SetFields(change))
    else if RetypesFull(t, id, change, written) then outcome == Refused(PageNotEmpty)
    else outcome == if SetsNothingNew(t[id], change) then Unchanged(id) else Done(id)
  }

  lemma PatchAnswer(db: Db, workspace: Id, actor: Id, id: Id, base: int, change: ChangeSet, written: bool)
    ensures PatchAnswers(db, workspace, id, base, change, written,
                         PatchStep(db, workspace, actor, id, base, change, written).1)
  {
    SentAreSet(change);
    ConflictsReport(db.log, id, base, SentFields(change), SetFields(change));
    if id in db.pages { DiffEmpty(StateOf(db.pages[id]), PatchedState(db.pages[id], change)); }
  }

  /** Whether some request changed a field that the edit sets. */
  ghost predicate ChangedSince(seen: Db, since: seq<Step>, id: Id, change: ChangeSet)
    requires Inv(seen.pages)
  {
    exists f :: Sets(change, f) && PageHistory.ChangedDuring(seen, since, id, f)
  }

  lemma OvertakenIsChanged(seen: Db, since: seq<Step>, id: Id, change: ChangeSet)
    requires Inv(seen.pages) && H.Bounded(PageHistory.View(seen)) && id in seen.pages
    ensures Overtaken(Run(seen, since).log, id, seen.pages[id].version, SetFields(change))
       <==> ChangedSince(seen, since, id, change)
  {
    var log, base := Run(seen, since).log, seen.pages[id].version;
    SentAreSet(change);
    ConflictsReport(log, id, base, SentFields(change), SetFields(change));
    PageHistory.ConflictsAreChanges(seen, since, id, change);
    var found := Conflicts(log, id, base, SentFields(change));
    if f :| f in found {
      assert Sets(change, f) && PageHistory.ChangedDuring(seen, since, id, f);
    }
  }

  lemma VersionsGrow(seen: Db, since: seq<Step>, id: Id)
    requires Inv(seen.pages) && H.Bounded(PageHistory.View(seen)) && id in seen.pages
    ensures id in Run(seen, since).pages && seen.pages[id].version <= Run(seen, since).pages[id].version
  {
    PageHistory.LogReplaysEveryState(seen, since);
    assert H.ReplaysRow(PageHistory.View(seen), PageHistory.View(Run(seen, since)), PageHistory.TRACKED, id);
  }

  lemma EditRefused(seen: Db, since: seq<Step>, workspace: Id, actor: Id, id: Id, change: ChangeSet, written: bool)
    requires Inv(seen.pages) && H.Bounded(PageHistory.View(seen)) && id in seen.pages
    requires IsHere(Run(seen, since).pages, workspace, id)
    requires SetsAny(change)
    ensures PatchStep(Run(seen, since), workspace, actor, id, seen.pages[id].version, change, written).1.Refused?
       <==> ChangedSince(seen, since, id, change) || RetypesFull(Run(seen, since).pages, id, change, written)
  {
    OvertakenIsChanged(seen, since, id, change);
    VersionsGrow(seen, since, id);
    PatchAnswer(Run(seen, since), workspace, actor, id, seen.pages[id].version, change, written);
  }

  /** An edit of a page that is there, made on any state reached from an empty instance and sent after any further
      requests, is refused exactly when one of these changed a field that it sets, or it retypes a page that is not
      empty. */
  lemma EditRefusedExactly(before: seq<Step>, since: seq<Step>, workspace: Id, actor: Id, id: Id, change: ChangeSet,
                           written: bool)
    requires var seen := Run(Db(map[], []), before);
             id in seen.pages && IsHere(Run(seen, since).pages, workspace, id)
    requires SetsAny(change)
    ensures var seen := Run(Db(map[], []), before);
            var now := Run(seen, since);
            PatchStep(now, workspace, actor, id, seen.pages[id].version, change, written).1.Refused?
            <==> ChangedSince(seen, since, id, change) || RetypesFull(now.pages, id, change, written)
  {
    PageHistory.LogReplaysEveryState(Db(map[], []), before);
    EditRefused(Run(Db(map[], []), before), since, workspace, actor, id, change, written);
  }

  /** An edit made on the current version that sends no type is always accepted. */
  lemma CurrentEditAccepted(before: seq<Step>, workspace: Id, actor: Id, id: Id, change: ChangeSet, written: bool)
    requires IsHere(Run(Db(map[], []), before).pages, workspace, id)
    requires SetsAny(change) && change.kind.None?
    ensures var now := Run(Db(map[], []), before);
            !PatchStep(now, workspace, actor, id, now.pages[id].version, change, written).1.Refused?
  {
    EditRefusedExactly(before, [], workspace, actor, id, change, written);
  }
}
