/** What a change log says about the past, for any store of versioned entities whose changes go through
    it: it replays every tracked field to its value in every earlier state. */
module History {
  import opened Base
  import opened ChangeLog

  /** An entity's version and the values of its fields. */
  datatype Snapshot<!F, !V> = Snapshot(version: nat, get: F -> V)

  datatype Store<!F, !V> = Store(rows: map<Id, Snapshot<F, V>>, log: seq<Row<F, V>>)

  // ---- One change ----

  /** `x` is still there, no older, with the same tracked fields. */
  ghost predicate Kept<F(!new), V>(b: Store<F, V>, c: Store<F, V>, tracked: seq<F>, x: Id) {
    && x in b.rows && x in c.rows && b.rows[x].version <= c.rows[x].version
    && forall f | f in tracked :: c.rows[x].get(f) == b.rows[x].get(f)
  }

  /** `id` got its next version, with its whole difference in the log; every other entity is kept. */
  ghost predicate Recorded<F(!new), V>(b: Store<F, V>, c: Store<F, V>, fields: seq<F>, tracked: seq<F>, id: Id,
                             actor: Id) {
    && id in b.rows && id in c.rows
    && c.rows[id].version == b.rows[id].version + 1
    && c.log == b.log + Rows(id, c.rows[id].version, actor, Diff(fields, b.rows[id].get, c.rows[id].get))
    && forall x | x in b.rows && x != id :: Kept(b, c, tracked, x)
  }

  ghost predicate AllKept<F(!new), V>(b: Store<F, V>, c: Store<F, V>, tracked: seq<F>) {
    forall x | x in b.rows :: Kept(b, c, tracked, x)
  }

  /** A change that is logged: of one entity, or of nothing that is tracked. */
  ghost predicate Logged<F(!new), V>(b: Store<F, V>, c: Store<F, V>, fields: seq<F>, tracked: seq<F>) {
    (c.log == b.log && AllKept(b, c, tracked))
    || exists id, actor :: Recorded(b, c, fields, tracked, id, actor)
  }

  lemma {:induction false} SameDiff<F(!new), V>(fields: seq<F>, a: F -> V, b: F -> V, c: F -> V, d: F -> V)
    requires forall f :: a(f) == c(f) && b(f) == d(f)
    ensures Diff(fields, a, b) == Diff(fields, c, d)
  {
    if fields != [] { SameDiff(fields[1..], a, b, c, d); }
  }

  // ---- The log against every past state ----

  /** No row is from a version its entity has not reached. */
  ghost predicate Bounded<F(!new), V(!new)>(s: Store<F, V>) {
    forall row | row in s.log :: row.entity in s.rows && row.version <= s.rows[row.entity].version
  }

  /** From the log of `b`, every tracked field of an entity of `a` is replayed back to its value there. */
  ghost predicate Replays<F(!new), V>(a: Store<F, V>, b: Store<F, V>, tracked: seq<F>) {
    forall x | x in a.rows :: ReplaysRow(a, b, tracked, x)
  }

  ghost predicate ReplaysRow<F(!new), V>(a: Store<F, V>, b: Store<F, V>, tracked: seq<F>, x: Id)
    requires x in a.rows
  {
    && x in b.rows && a.rows[x].version <= b.rows[x].version
    && forall f | f in tracked ::
         a.rows[x].get(f) == ValueAt(b.log, x, f, a.rows[x].version, b.rows[x].get(f))
  }

  lemma ReplaysItself<F(!new), V(!new)>(s: Store<F, V>, tracked: seq<F>)
    requires Bounded(s)
    ensures Replays(s, s, tracked)
  {
    forall x, f | x in s.rows && f in tracked
      ensures s.rows[x].get(f) == ValueAt(s.log, x, f, s.rows[x].version, s.rows[x].get(f))
    {
      UntouchedKeepsValue(s.log, x, f, s.rows[x].version, s.rows[x].get(f));
    }
  }

  lemma NextBounded<F(!new), V(!new)>(b: Store<F, V>, c: Store<F, V>, fields: seq<F>, tracked: seq<F>)
    requires Bounded(b) && Logged(b, c, fields, tracked)
    ensures Bounded(c)
  {
    if id, actor :| Recorded(b, c, fields, tracked, id, actor) {
      forall row | row in c.log ensures row.entity in c.rows && row.version <= c.rows[row.entity].version {
        if row in b.log && row.entity != id { assert Kept(b, c, tracked, row.entity); }
      }
    } else {
      forall row | row in c.log ensures row.entity in c.rows && row.version <= c.rows[row.entity].version {
        assert Kept(b, c, tracked, row.entity);
      }
    }
  }

  lemma RowsOfAnother<F(!new), V(!new)>(entity: Id, version: nat, actor: Id, changes: seq<Change<F, V>>, x: Id,
                        field: F, at: int)
    requires x != entity
    ensures Untouched(Rows(entity, version, actor, changes), x, field, at)
  {
    var rows := Rows(entity, version, actor, changes);
    forall row | row in rows ensures !Newer(row, x, field, at) {
      var i := IndexOf(rows, row);
    }
  }

  /** One more change of history: the older value follows from the newer one. */
  lemma RecordedReplays<F(!new), V(!new)>(a: Store<F, V>, b: Store<F, V>, c: Store<F, V>, fields: seq<F>,
                          tracked: seq<F>, id: Id, actor: Id, x: Id, f: F)
    requires x in a.rows && ReplaysRow(a, b, tracked, x) && Recorded(b, c, fields, tracked, id, actor)
    requires f in tracked && f in fields
    ensures x in c.rows && a.rows[x].get(f) == ValueAt(c.log, x, f, a.rows[x].version, c.rows[x].get(f))
  {
    var at := a.rows[x].version;
    var was, becomes := b.rows[id].get, c.rows[id].get;
    var rows := Rows(id, c.rows[id].version, actor, Diff(fields, was, becomes));
    if x != id { assert Kept(b, c, tracked, x); }
    ReplayConcat(b.log, rows, x, f, at, c.rows[x].get(f));
    if x == id {
      ReplayDiff(fields, was, becomes, id, c.rows[id].version, actor, f, at);
    } else {
      RowsOfAnother(id, c.rows[id].version, actor, Diff(fields, was, becomes), x, f, at);
      UntouchedKeepsValue(rows, x, f, at, c.rows[x].get(f));
    }
  }

  lemma NextReplays<F(!new), V(!new)>(a: Store<F, V>, b: Store<F, V>, c: Store<F, V>, fields: seq<F>, tracked: seq<F>)
    requires Replays(a, b, tracked) && Logged(b, c, fields, tracked)
    requires forall f | f in tracked :: f in fields
    ensures Replays(a, c, tracked)
  {
    forall x | x in a.rows ensures ReplaysRow(a, c, tracked, x) {
      assert ReplaysRow(a, b, tracked, x);
      if id, actor :| Recorded(b, c, fields, tracked, id, actor) {
        if x != id { assert Kept(b, c, tracked, x); }
        forall f | f in tracked
          ensures a.rows[x].get(f) == ValueAt(c.log, x, f, a.rows[x].version, c.rows[x].get(f))
        {
          RecordedReplays(a, b, c, fields, tracked, id, actor, x, f);
        }
      } else {
        assert Kept(b, c, tracked, x);
      }
    }
  }

  /** A field without a newer row has the value it had. */
  lemma NoConflictSameValue<F(!new), V(!new)>(a: Store<F, V>, b: Store<F, V>, tracked: seq<F>, x: Id, f: F)
    requires Replays(a, b, tracked) && x in a.rows && f in tracked
    requires Untouched(b.log, x, f, a.rows[x].version)
    ensures x in b.rows && b.rows[x].get(f) == a.rows[x].get(f)
  {
    assert ReplaysRow(a, b, tracked, x);
    UntouchedKeepsValue(b.log, x, f, a.rows[x].version, b.rows[x].get(f));
  }

  /** A change leaves a field without newer rows exactly when there were none and its value stays. */
  lemma StepTouches<F(!new), V(!new)>(b: Store<F, V>, c: Store<F, V>, fields: seq<F>, tracked: seq<F>, x: Id, f: F,
                      base: int)
    requires Logged(b, c, fields, tracked) && x in b.rows && base <= b.rows[x].version
    requires f in tracked && f in fields
    ensures x in c.rows && b.rows[x].version <= c.rows[x].version
    ensures Untouched(c.log, x, f, base)
       <==> Untouched(b.log, x, f, base) && c.rows[x].get(f) == b.rows[x].get(f)
  {
    if id, actor :| Recorded(b, c, fields, tracked, id, actor) {
      var was, becomes := b.rows[id].get, c.rows[id].get;
      var rows := Rows(id, c.rows[id].version, actor, Diff(fields, was, becomes));
      if id == x {
        DiffRecorded(fields, was, becomes, id, c.rows[id].version, actor, f, base);
      } else {
        assert Kept(b, c, tracked, x);
        RowsOfAnother(id, c.rows[id].version, actor, Diff(fields, was, becomes), x, f, base);
      }
      assert Untouched(b.log + rows, x, f, base) <==> Untouched(b.log, x, f, base) && Untouched(rows, x, f, base);
    } else {
      assert Kept(b, c, tracked, x);
    }
  }
}
