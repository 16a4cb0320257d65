/** The client's cache of the Inbox: loaded pages of tabs, pinned groups, unread counts, and what the patches and
    the pushed updates do to them. */
module Inbox {
  import opened Base
  import opened Notifications
  import opened Paging

  /** A loaded page of a tab. */
  datatype Part = Part(rows: seq<Notification>, next: Option<Cursor>)

  /** A cached tab of a workspace. */
  datatype List = List(workspace: Id, view: View, pages: seq<Part>)

  /** The pinned account-level notifications, as one tab shows them. */
  datatype Group = Group(view: View, rows: seq<Notification>)

  /** The unread counts; a workspace with none may be absent. */
  datatype Summary = Summary(byWorkspace: map<Id, nat>, account: nat)

  datatype Cache = Cache(
    lists: seq<List>,
    pinned: seq<Group>,
    summary: Option<Summary>,
    inFlight: map<Id, nat>,   // how many unsettled changes each has
    behind: bool,             // counts were pushed and not taken over
    refetches: nat)           // how often the summary was fetched again for that

  function Joined(pages: seq<Part>): seq<Notification> {
    if pages == [] then [] else pages[0].rows + Joined(pages[1..])
  }

  /** The last page is loaded. */
  predicate Complete(pages: seq<Part>) {
    pages != [] && pages[|pages| - 1].next.None?
  }

  function Rows(list: List): seq<Notification> {
    Joined(list.pages)
  }

  // ---- Placing one notification in the pages of a tab ----

  /** What the client keeps in a tab; the account's unread ones live in the pinned groups. */
  predicate BelongsTo(view: View, n: Notification) {
    !(n.workspace.None? && IsUnread(n)) && Keeps(view, n)
  }

  function Without(rows: seq<Notification>, id: Id): (r: seq<Notification>)
    ensures forall n :: n in r <==> n in rows && n.id != id
  {
    if rows == [] then []
    else if rows[0].id == id then Without(rows[1..], id)
    else [rows[0]] + Without(rows[1..], id)
  }

  predicate HasLater(view: View, rows: seq<Notification>, n: Notification) {
    exists i | 0 <= i < |rows| :: ComesBefore(view, n, rows[i])
  }

  function WithoutPages(pages: seq<Part>, id: Id): seq<Part> {
    if pages == [] then []
    else [pages[0].(rows := Without(pages[0].rows, id))] + WithoutPages(pages[1..], id)
  }

  /** Before the first row it comes before; after the last one only when there are no further pages. */
  function InsertPages(view: View, pages: seq<Part>, n: Notification): seq<Part> {
    if pages == [] then []
    else if HasLater(view, pages[0].rows, n) || (|pages| == 1 && pages[0].next.None?)
    then [pages[0].(rows := Insert(view, pages[0].rows, n))] + pages[1..]
    else [pages[0]] + InsertPages(view, pages[1..], n)
  }

  function PlacePages(view: View, pages: seq<Part>, n: Notification): seq<Part> {
    var rest := WithoutPages(pages, n.id);
    if BelongsTo(view, n) then InsertPages(view, rest, n) else rest
  }

  /** What placing does to the pages joined. */
  function PlaceRows(view: View, rows: seq<Notification>, complete: bool, n: Notification): seq<Notification> {
    var rest := Without(rows, n.id);
    if BelongsTo(view, n) && (complete || HasLater(view, rest, n)) then Insert(view, rest, n) else rest
  }

  // ---- All the lists and groups ----

  const VIEWS: set<View> := {All, Unread, Archived}

  function PlaceInList(list: List, n: Notification, views: set<View>): List {
    if (n.workspace == Some(list.workspace) || n.workspace.None?) && list.view in views
    then list.(pages := PlacePages(list.view, list.pages, n))
    else list
  }

  function PlaceInLists(c: Cache, n: Notification, views: set<View>): Cache {
    c.(lists := seq(|c.lists|, i requires 0 <= i < |c.lists| => PlaceInList(c.lists[i], n, views)))
  }

  /** Newest first, then by id. */
  function SortPinned(rows: seq<Notification>): (r: seq<Notification>)
    ensures forall n :: n in r <==> n in rows
  {
    if rows == [] then [] else
      InsertKeeps(All, SortPinned(rows[1..]), rows[0]);
      Insert(All, SortPinned(rows[1..]), rows[0])
  }

  function PlaceInGroup(group: Group, n: Notification): Group {
    var rest := Without(group.rows, n.id);
    group.(rows := if n.workspace.None? && IsUnread(n) then SortPinned([n] + rest) else rest)
  }

  function PlaceInPinned(c: Cache, n: Notification): Cache {
    c.(pinned := seq(|c.pinned|, i requires 0 <= i < |c.pinned| => PlaceInGroup(c.pinned[i], n)))
  }

  function MapRows(rows: seq<Notification>, f: Notification -> Notification): seq<Notification> {
    seq(|rows|, i requires 0 <= i < |rows| => f(rows[i]))
  }

  function MapPages(pages: seq<Part>, f: Notification -> Notification): seq<Part> {
    if pages == [] then [] else [pages[0].(rows := MapRows(pages[0].rows, f))] + MapPages(pages[1..], f)
  }

  function MapList(list: List, f: Notification -> Notification): List {
    list.(pages := MapPages(list.pages, f))
  }

  function MapLists(c: Cache, f: Notification -> Notification): Cache {
    c.(lists := seq(|c.lists|, i requires 0 <= i < |c.lists| => MapList(c.lists[i], f)))
  }

  function MapPinned(c: Cache, f: Notification -> Notification): Cache {
    c.(pinned := seq(|c.pinned|, i requires 0 <= i < |c.pinned| =>
                       c.pinned[i].(rows := MapRows(c.pinned[i].rows, f))))
  }

  function MapCopies(c: Cache, f: Notification -> Notification): Cache {
    MapPinned(MapLists(c, f), f)
  }

  /** The last of `changed` with this id. */
  function LastOf(changed: seq<Notification>, id: Id): Option<Notification> {
    if changed == [] then None
    else if changed[|changed| - 1].id == id then Some(changed[|changed| - 1])
    else LastOf(changed[..|changed| - 1], id)
  }

  function ReplaceInPlace(c: Cache, changed: seq<Notification>): Cache {
    MapCopies(c, (n: Notification) => LastOf(changed, n.id).GetOr(n))
  }

  datatype ReadAllUpdate = ReadAllUpdate(workspace: Id, before: Time, readAt: Time)

  function ReadAllOne(inFlight: map<Id, nat>, rule: ReadAllUpdate, n: Notification): Notification {
    if ReadByAll(n, rule.workspace, rule.before) && n.id !in inFlight then n.(readAt := Some(rule.readAt)) else n
  }

  function ReadAllInPlace(c: Cache, rule: ReadAllUpdate): Cache {
    MapCopies(c, (n: Notification) => ReadAllOne(c.inFlight, rule, n))
  }

  // ---- The cached copy of a notification ----

  function ListCopies(lists: seq<List>): seq<Notification> {
    if lists == [] then [] else Rows(lists[0]) + ListCopies(lists[1..])
  }

  function GroupCopies(groups: seq<Group>): seq<Notification> {
    if groups == [] then [] else groups[0].rows + GroupCopies(groups[1..])
  }

  function Copies(c: Cache): seq<Notification> {
    ListCopies(c.lists) + GroupCopies(c.pinned)
  }

  function FirstWith(rows: seq<Notification>, id: Id): (n: Option<Notification>)
    ensures n.None? <==> forall m | m in rows :: m.id != id
    ensures n.Some? ==> n.value in rows && n.value.id == id
  {
    if rows == [] then None else if rows[0].id == id then Some(rows[0]) else FirstWith(rows[1..], id)
  }

  /** The first copy found, in the lists, then in the pinned groups. */
  function Cached(c: Cache, id: Id): Option<Notification> {
    FirstWith(Copies(c), id)
  }

  // ---- Pushed updates ----

  datatype Update = Update(upserted: seq<Notification>, readAll: Option<ReadAllUpdate>, summary: Summary)

  /** The cache after the first upserted notifications, and those of them to be replaced in place. */
  datatype Progress = Progress(cache: Cache, inPlace: seq<Notification>)

  function Upsert(p: Progress, n: Notification): Progress {
    if n.id in p.cache.inFlight then p.(cache := p.cache.(behind := true))
    else
      var known := Cached(p.cache, n.id);
      if known.Some? && known.value.archivedAt == n.archivedAt
      then p.(inPlace := p.inPlace + [n])
      else p.(cache := PlaceInLists(PlaceInPinned(p.cache, n), n, VIEWS))
  }

  function UpsertAll(c: Cache, upserted: seq<Notification>): Progress {
    if upserted == [] then Progress(c, [])
    else Upsert(UpsertAll(c, upserted[..|upserted| - 1]), upserted[|upserted| - 1])
  }

  function ReceiveSummary(c: Cache, summary: Summary): Cache {
    if c.inFlight != map[] then c.(behind := true) else c.(summary := Some(summary))
  }

  function Receive(c: Cache, update: Update): Cache {
    var p := UpsertAll(c, update.upserted);
    var replaced := ReplaceInPlace(p.cache, p.inPlace);
    var read := if update.readAll.Some? then ReadAllInPlace(replaced, update.readAll.value) else replaced;
    ReceiveSummary(read, update.summary)
  }

  // ---- Changes in flight ----

  function HoldAll(inFlight: map<Id, nat>, ids: seq<Id>): map<Id, nat> {
    if ids == [] then inFlight
    else
      var before := HoldAll(inFlight, ids[..|ids| - 1]);
      var id := ids[|ids| - 1];
      before[id := (if id in before then before[id] else 0) + 1]
  }

  function ReleaseAll(inFlight: map<Id, nat>, ids: seq<Id>): map<Id, nat> {
    if ids == [] then inFlight
    else
      var before := ReleaseAll(inFlight, ids[..|ids| - 1]);
      var id := ids[|ids| - 1];
      if id in before && before[id] > 1 then before[id := before[id] - 1] else before - {id}
  }

  function Hold(c: Cache, ids: seq<Id>): Cache {
    c.(inFlight := HoldAll(c.inFlight, ids))
  }

  /** What the server answers when the summary and the pinned notifications are fetched again. */
  datatype Fetched = Fetched(pinned: seq<Notification>, summary: Summary)

  function Refresh(c: Cache, fetched: Fetched): Cache {
    c.(summary := if c.summary.Some? then Some(fetched.summary) else None,
       pinned := seq(|c.pinned|, i requires 0 <= i < |c.pinned| => c.pinned[i].(rows := fetched.pinned)))
  }

  /** Whether the last change settles, and a summary is owed. */
  predicate Settles(c: Cache, ids: seq<Id>) {
    ReleaseAll(c.inFlight, ids) == map[] && c.behind
  }

  /** When the last change settles, what was skipped is fetched; the lists are not. */
  function Release(c: Cache, ids: seq<Id>, fetched: Fetched): Cache {
    var left := c.(inFlight := ReleaseAll(c.inFlight, ids));
    if Settles(c, ids) then Refresh(left.(behind := false, refetches := c.refetches + 1), fetched) else left
  }

  // ---- Optimistic patches ----

  datatype Edit = Edit(before: Notification, after: Notification)

  function Delta(e: Edit): int {
    (if IsUnread(e.after) then 1 else 0) - (if IsUnread(e.before) then 1 else 0)
  }

  function Counted(s: Summary, workspace: Option<Id>): nat {
    match workspace
    case Some(w) => if w in s.byWorkspace then s.byWorkspace[w] else 0
    case None => s.account
  }

  function PatchCount(s: Summary, e: Edit): Summary {
    if Delta(e) == 0 then s
    else
      var count: nat := Max(0, Counted(s, e.after.workspace) + Delta(e));
      match e.after.workspace
      case Some(w) => s.(byWorkspace := s.byWorkspace[w := count])
      case None => s.(account := count)
  }

  function PatchCounts(s: Summary, edits: seq<Edit>): Summary {
    if edits == [] then s else PatchCount(PatchCounts(s, edits[..|edits| - 1]), edits[|edits| - 1])
  }

  function PatchSummary(c: Cache, edits: seq<Edit>): Cache {
    if c.summary.None? then c else c.(summary := Some(PatchCounts(c.summary.value, edits)))
  }

  function ReadPatch(ids: seq<Id>, readAt: Option<Time>, n: Notification): Notification {
    if n.id in ids then n.(readAt := readAt) else n
  }

  /** What the patch does to each notification that is cached. */
  function ReadEdits(c: Cache, ids: seq<Id>, readAt: Option<Time>): seq<Edit> {
    if ids == [] then []
    else
      var before := Cached(c, ids[|ids| - 1]);
      ReadEdits(c, ids[..|ids| - 1], readAt)
      + if before.Some? then [Edit(before.value, before.value.(readAt := readAt))] else []
  }

  /** Of a group's rows, those that stay and those that leave it for the lists. */
  predicate Leaves(view: View, ids: seq<Id>, readAt: Option<Time>, n: Notification) {
    n.id in ids && view.All? && !IsUnread(n.(readAt := readAt))
  }

  function Staying(view: View, rows: seq<Notification>, ids: seq<Id>, readAt: Option<Time>): (r: seq<Notification>)
    ensures forall m :: m in r ==> exists n :: n in rows && m == ReadPatch(ids, readAt, n)
  {
    if rows == [] then []
    else
      var n := rows[|rows| - 1];
      Staying(view, rows[..|rows| - 1], ids, readAt)
      + if Leaves(view, ids, readAt, n) then [] else [ReadPatch(ids, readAt, n)]
  }

  function Moving(view: View, rows: seq<Notification>, ids: seq<Id>, readAt: Option<Time>): (r: seq<Notification>)
    ensures forall m :: m in r ==> exists n :: n in rows && n.id in ids && m == n.(readAt := readAt)
  {
    if rows == [] then []
    else
      var n := rows[|rows| - 1];
      Moving(view, rows[..|rows| - 1], ids, readAt)
      + if Leaves(view, ids, readAt, n) then [n.(readAt := readAt)] else []
  }

  function PlaceAll(c: Cache, rows: seq<Notification>, views: set<View>): Cache {
    if rows == [] then c else PlaceInLists(PlaceAll(c, rows[..|rows| - 1], views), rows[|rows| - 1], views)
  }

  /** The patch of the first `k` pinned groups. */
  function PatchGroups(c: Cache, ids: seq<Id>, readAt: Option<Time>, k: nat): (r: Cache)
    requires k <= |c.pinned|
    ensures |r.pinned| == |c.pinned| && r.pinned[k..] == c.pinned[k..]
    decreases k
  {
    if k == 0 then c
    else
      var before := PatchGroups(c, ids, readAt, k - 1);
      var group := c.pinned[k - 1];
      PlaceAllKeepsRest(
        before.(pinned := before.pinned[k - 1 := group.(rows := Staying(group.view, group.rows, ids, readAt))]),
        Moving(group.view, group.rows, ids, readAt), {All});
      PlaceAll(before.(pinned := before.pinned[k - 1 := group.(rows := Staying(group.view, group.rows, ids, readAt))]),
               Moving(group.view, group.rows, ids, readAt), {All})
  }

  function PatchRead(c: Cache, ids: seq<Id>, readAt: Option<Time>): Cache {
    var counted := PatchSummary(c, ReadEdits(c, ids, readAt));
    var listed := MapLists(counted, (n: Notification) => ReadPatch(ids, readAt, n));
    PatchGroups(listed, ids, readAt, |listed.pinned|)
  }

  /** `ids` with those of `rows` that a read-all reads, each once, in the order they are met. */
  function AddRead(ids: seq<Id>, rows: seq<Notification>, workspace: Id, before: Time): seq<Id> {
    if rows == [] then ids
    else
      var found := AddRead(ids, rows[..|rows| - 1], workspace, before);
      var n := rows[|rows| - 1];
      if ReadByAll(n, workspace, before) && n.id !in found then found + [n.id] else found
  }

  function ReadInLists(lists: seq<List>, workspace: Id, before: Time): seq<Id> {
    if lists == [] then []
    else
      var found := ReadInLists(lists[..|lists| - 1], workspace, before);
      var list := lists[|lists| - 1];
      if list.workspace == workspace then AddRead(found, Rows(list), workspace, before) else found
  }

  function ReadInGroups(ids: seq<Id>, groups: seq<Group>, workspace: Id, before: Time): seq<Id> {
    if groups == [] then ids
    else
      var found := ReadInGroups(ids, groups[..|groups| - 1], workspace, before);
      AddRead(found, groups[|groups| - 1].rows, workspace, before)
  }

  /** The loaded notifications that a read-all of the workspace reads. */
  function ReadAllIds(c: Cache, workspace: Id, before: Time): seq<Id> {
    ReadInGroups(ReadInLists(c.lists, workspace, before), c.pinned, workspace, before)
  }

  function PatchReadAll(c: Cache, workspace: Id, before: Time, readAt: Time): Cache {
    PatchRead(c, ReadAllIds(c, workspace, before), Some(readAt))
  }

  function ArchivePatch(n: Notification, archivedAt: Option<Time>): Notification {
    n.(archivedAt := archivedAt,
       readAt := if archivedAt.Some? then Some(n.readAt.GetOr(archivedAt.value)) else n.readAt)
  }

  function DropPinned(c: Cache, id: Id): Cache {
    c.(pinned := seq(|c.pinned|, i requires 0 <= i < |c.pinned| =>
                       c.pinned[i].(rows := Without(c.pinned[i].rows, id))))
  }

  function PatchArchive(c: Cache, n: Notification, archivedAt: Option<Time>): Cache {
    var current := Cached(c, n.id).GetOr(n);
    var next := ArchivePatch(current, archivedAt);
    DropPinned(PlaceInLists(PatchSummary(c, [Edit(current, next)]), next, VIEWS), next.id)
  }

  // ---- Facts about these ----

  lemma InsertKeeps(view: View, rows: seq<Notification>, n: Notification)
    ensures forall m :: m in Insert(view, rows, n) <==> m == n || m in rows
  {
    if rows != [] {
      assert rows == [rows[0]] + rows[1..];
      if !ComesBefore(view, n, rows[0]) { InsertKeeps(view, rows[1..], n); }
    }
  }

  lemma PlaceAllKeepsRest(c: Cache, rows: seq<Notification>, views: set<View>)
    ensures var p := PlaceAll(c, rows, views);
            p == c.(lists := p.lists) && |p.lists| == |c.lists|
  {
  }

  lemma {:induction false} JoinedConcat(a: seq<Part>, b: seq<Part>)
    ensures Joined(a + b) == Joined(a) + Joined(b)
  {
    if a == [] {
      assert a + b == b;
    } else {
      assert (a + b)[1..] == a[1..] + b;
      JoinedConcat(a[1..], b);
    }
  }

  lemma {:induction false} WithoutConcat(a: seq<Notification>, b: seq<Notification>, id: Id)
    ensures Without(a + b, id) == Without(a, id) + Without(b, id)
  {
    if a == [] {
      assert a + b == b;
    } else {
      assert (a + b)[1..] == a[1..] + b;
      WithoutConcat(a[1..], b, id);
    }
  }

  lemma HasLaterConcat(view: View, a: seq<Notification>, b: seq<Notification>, n: Notification)
    ensures HasLater(view, a + b, n) <==> HasLater(view, a, n) || HasLater(view, b, n)
  {
    assert forall i | 0 <= i < |a| :: a[i] == (a + b)[i];
    assert forall i | 0 <= i < |b| :: b[i] == (a + b)[|a| + i];
  }

  lemma {:induction false} InsertConcat(view: View, a: seq<Notification>, b: seq<Notification>, n: Notification)
    ensures Insert(view, a + b, n) == if HasLater(view, a, n) then Insert(view, a, n) + b else a + Insert(view, b, n)
  {
    if a == [] {
      assert a + b == b;
    } else {
      assert (a + b)[1..] == a[1..] + b;
      if ComesBefore(view, n, a[0]) {
        assert HasLater(view, a, n);
      } else {
        InsertConcat(view, a[1..], b, n);
        assert a == [a[0]] + a[1..];
        HasLaterConcat(view, [a[0]], a[1..], n);
      }
    }
  }

  ghost predicate SameCursors(a: seq<Part>, b: seq<Part>) {
    |a| == |b| && forall i | 0 <= i < |a| :: a[i].next == b[i].next
  }

  lemma {:induction false} WithoutJoins(pages: seq<Part>, id: Id)
    ensures SameCursors(pages, WithoutPages(pages, id))
    ensures Joined(WithoutPages(pages, id)) == Without(Joined(pages), id)
  {
    if pages != [] {
      WithoutJoins(pages[1..], id);
      WithoutConcat(pages[0].rows, Joined(pages[1..]), id);
    }
  }

  lemma {:induction false} InsertCursors(view: View, pages: seq<Part>, n: Notification)
    ensures SameCursors(pages, InsertPages(view, pages, n))
  {
    if pages != [] {
      InsertCursors(view, pages[1..], n);
    }
  }

  /** Whether the notification has a place among the loaded rows. */
  predicate HasPlace(view: View, pages: seq<Part>, n: Notification) {
    Complete(pages) || HasLater(view, Joined(pages), n)
  }

  /** What `InsertPages` does to the pages joined. */
  function InsertRows(view: View, pages: seq<Part>, n: Notification): seq<Notification> {
    if HasPlace(view, pages, n) then Insert(view, Joined(pages), n) else Joined(pages)
  }

  lemma InsertsHere(view: View, pages: seq<Part>, n: Notification)
    requires pages != [] && (HasLater(view, pages[0].rows, n) || (|pages| == 1 && pages[0].next.None?))
    ensures Joined(InsertPages(view, pages, n)) == InsertRows(view, pages, n)
  {
    var first, rest := pages[0], pages[1..];
    InsertConcat(view, first.rows, Joined(rest), n);
    HasLaterConcat(view, first.rows, Joined(rest), n);
    InsertedFirst(first.(rows := Insert(view, first.rows, n)), rest);
    if |pages| == 1 { assert Joined(pages) == first.rows; }
  }

  lemma InsertsLater(view: View, pages: seq<Part>, n: Notification)
    requires pages != [] && !HasLater(view, pages[0].rows, n) && !(|pages| == 1 && pages[0].next.None?)
    requires Joined(InsertPages(view, pages[1..], n)) == InsertRows(view, pages[1..], n)
    ensures Joined(InsertPages(view, pages, n)) == InsertRows(view, pages, n)
  {
    var first, rest := pages[0], pages[1..];
    InsertConcat(view, first.rows, Joined(rest), n);
    HasLaterConcat(view, first.rows, Joined(rest), n);
    InsertedFirst(first, InsertPages(view, rest, n));
    assert Complete(pages) == Complete(rest);
  }

  lemma {:induction false} InsertJoins(view: View, pages: seq<Part>, n: Notification)
    ensures Joined(InsertPages(view, pages, n)) == InsertRows(view, pages, n)
  {
    if pages != [] {
      if HasLater(view, pages[0].rows, n) || (|pages| == 1 && pages[0].next.None?) {
        InsertsHere(view, pages, n);
      } else {
        InsertJoins(view, pages[1..], n);
        InsertsLater(view, pages, n);
      }
    }
  }

  lemma InsertedFirst(first: Part, rest: seq<Part>)
    ensures Joined([first] + rest) == first.rows + Joined(rest)
  {
    assert ([first] + rest)[1..] == rest;
  }

  lemma SameComplete(a: seq<Part>, b: seq<Part>)
    requires SameCursors(a, b)
    ensures Complete(a) == Complete(b)
  {
  }

  /** On the pages joined, placing is `PlaceRows`; it moves no cursor. */
  lemma PlaceJoins(view: View, pages: seq<Part>, n: Notification)
    ensures SameCursors(pages, PlacePages(view, pages, n))
    ensures Joined(PlacePages(view, pages, n)) == PlaceRows(view, Joined(pages), Complete(pages), n)
    ensures Complete(PlacePages(view, pages, n)) == Complete(pages)
  {
    var rest := WithoutPages(pages, n.id);
    WithoutJoins(pages, n.id);
    SameComplete(pages, rest);
    if BelongsTo(view, n) {
      var placed := InsertPages(view, rest, n);
      InsertCursors(view, rest, n);
      InsertJoins(view, rest, n);
      SameComplete(rest, placed);
      assert PlacePages(view, pages, n) == placed;
    }
  }

  lemma {:induction false} MapJoins(pages: seq<Part>, f: Notification -> Notification)
    ensures SameCursors(pages, MapPages(pages, f))
    ensures Joined(MapPages(pages, f)) == MapRows(Joined(pages), f)
    ensures Complete(MapPages(pages, f)) == Complete(pages)
  {
    if pages != [] {
      MapJoins(pages[1..], f);
    }
  }

  lemma {:induction false} InListCopies(lists: seq<List>, n: Notification)
    ensures n in ListCopies(lists) <==> exists i :: 0 <= i < |lists| && n in Rows(lists[i])
  {
    if lists != [] {
      InListCopies(lists[1..], n);
      assert forall i | 0 <= i < |lists| - 1 :: lists[1..][i] == lists[i + 1];
      assert n in Rows(lists[0]) ==> exists i :: 0 <= i < |lists| && n in Rows(lists[i]);
    }
  }

  lemma {:induction false} InGroupCopies(groups: seq<Group>, n: Notification)
    ensures n in GroupCopies(groups) <==> exists i :: 0 <= i < |groups| && n in groups[i].rows
  {
    if groups != [] {
      InGroupCopies(groups[1..], n);
      assert forall i | 0 <= i < |groups| - 1 :: groups[1..][i] == groups[i + 1];
      assert n in groups[0].rows ==> exists i :: 0 <= i < |groups| && n in groups[i].rows;
    }
  }
}
