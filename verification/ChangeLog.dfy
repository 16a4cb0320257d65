/** The history of tracked fields (`field_changes`): one row for each field a new version changed.
    Generic in the fields `F` of an entity and in their values `V`. */
module ChangeLog {
  import opened Base

  datatype Change<F, V> = Change(field: F, was: V, becomes: V)

  datatype Row<F, V> = Row(entity: Id, version: nat, field: F, was: V, becomes: V, actor: Id)

  /** Equal values make no entry. */
  function IfChanged<F, V(==)>(field: F, was: V, becomes: V): Option<Change<F, V>> {
    if was != becomes then Some(Change(field, was, becomes)) else None
  }

  /** The changed ones among `fields`, in that order. */
  function Diff<F, V(==)>(fields: seq<F>, was: F -> V, becomes: F -> V): seq<Change<F, V>> {
    if fields == [] then []
    else
      var rest := Diff(fields[1..], was, becomes);
      match IfChanged(fields[0], was(fields[0]), becomes(fields[0]))
      case Some(change) => [change] + rest
      case None => rest
  }

  lemma {:induction false} NothingDiffers<F, V>(fields: seq<F>, get: F -> V)
    ensures Diff(fields, get, get) == []
  {
    if fields != [] { NothingDiffers(fields[1..], get); }
  }

  /** The rows that record the changes which produced `version`. */
  function Rows<F, V>(entity: Id, version: nat, actor: Id, changes: seq<Change<F, V>>): (rows: seq<Row<F, V>>)
    ensures |rows| == |changes|
    ensures forall i | 0 <= i < |rows| :: rows[i].entity == entity && rows[i].version == version
  {
    if changes == [] then []
    else
      [Row(entity, version, changes[0].field, changes[0].was, changes[0].becomes, actor)]
      + Rows(entity, version, actor, changes[1..])
  }

  predicate Newer<F(==), V>(row: Row<F, V>, entity: Id, field: F, base: int) {
    row.entity == entity && row.field == field && row.version > base
  }

  /** The fields among `sent` changed after version `base`, each with its latest change. */
  function Conflicts<F(==, !new), V(!new)>(log: seq<Row<F, V>>, entity: Id, base: int, sent: seq<F>)
    : (found: map<F, Row<F, V>>)
    ensures forall f :: f in found <==> f in sent && exists row :: row in log && Newer(row, entity, f, base)
    ensures forall f | f in found :: found[f] in log && Newer(found[f], entity, f, base)
    ensures forall f, row | f in found && row in log && Newer(row, entity, f, base) :: row.version <= found[f].version
  {
    if log == [] then map[]
    else
      var last := log[|log| - 1];
      var found := Conflicts(log[..|log| - 1], entity, base, sent);
      assert log == log[..|log| - 1] + [last];
      if last.field in sent && Newer(last, entity, last.field, base)
         && (last.field !in found || found[last.field].version < last.version)
      then found[last.field := last]
      else found
  }

  /** The row is a change of one of these fields of the entity, newer than the base. */
  ghost predicate Overtakes<F(!new), V(!new)>(row: Row<F, V>, entity: Id, base: int, fields: set<F>) {
    row.entity == entity && row.field in fields && row.version > base
  }

  ghost predicate Overtaken<F(!new), V(!new)>(log: seq<Row<F, V>>, entity: Id, base: int, fields: set<F>) {
    exists row :: row in log && Overtakes(row, entity, base, fields)
  }

  /** For each of the fields that has newer changes, the newest of them, and nothing else. */
  ghost predicate Reports<F(!new), V(!new)>(found: map<F, Row<F, V>>, log: seq<Row<F, V>>, entity: Id, base: int,
                                            fields: set<F>) {
    && (forall row | row in log && Overtakes(row, entity, base, fields) ::
          row.field in found && row.version <= found[row.field].version)
    && (forall f | f in found :: found[f] in log && found[f].field == f && Overtakes(found[f], entity, base, fields))
  }

  lemma ConflictsReport<F(!new), V(!new)>(log: seq<Row<F, V>>, entity: Id, base: int, sent: seq<F>, fields: set<F>)
    requires forall f :: f in sent <==> f in fields
    ensures var found := Conflicts(log, entity, base, sent);
            Reports(found, log, entity, base, fields) && (found != map[] <==> Overtaken(log, entity, base, fields))
  {
    var found := Conflicts(log, entity, base, sent);
    forall row | row in log && Overtakes(row, entity, base, fields)
      ensures row.field in found && row.version <= found[row.field].version
    {
      assert Newer(row, entity, row.field, base);
    }
    if found != map[] {
      var f :| f in found;
      assert Overtakes(found[f], entity, base, fields);
    }
  }

  /** The value of a field when the entity was at version `at`, replayed back from the log: the old
      value of the first change after it, or the value `now` when there was none. */
  ghost function ValueAt<F, V>(log: seq<Row<F, V>>, entity: Id, field: F, at: int, now: V): V {
    if log == [] then now
    else if Newer(log[0], entity, field, at) then log[0].was
    else ValueAt(log[1..], entity, field, at, now)
  }

  ghost predicate Untouched<F(!new), V(!new)>(log: seq<Row<F, V>>, entity: Id, field: F, at: int) {
    forall row | row in log :: !Newer(row, entity, field, at)
  }

  lemma {:induction false} UntouchedKeepsValue<F(!new), V(!new)>(log: seq<Row<F, V>>, entity: Id, field: F, at: int,
                                                 now: V)
    requires Untouched(log, entity, field, at)
    ensures ValueAt(log, entity, field, at, now) == now
  {
    if log != [] {
      assert log[0] in log;
      assert forall row | row in log[1..] :: row in log;
      UntouchedKeepsValue(log[1..], entity, field, at, now);
    }
  }

  /** Replaying a longer log is replaying its newer part, then its older one. */
  lemma {:induction false} ReplayConcat<F, V>(log: seq<Row<F, V>>, rows: seq<Row<F, V>>, entity: Id, field: F,
                                              at: int, now: V)
    ensures ValueAt(log + rows, entity, field, at, now)
         == ValueAt(log, entity, field, at, ValueAt(rows, entity, field, at, now))
  {
    if log == [] {
      assert log + rows == rows;
    } else {
      assert (log + rows)[0] == log[0] && (log + rows)[1..] == log[1..] + rows;
      ReplayConcat(log[1..], rows, entity, field, at, now);
    }
  }

  /** The recorded difference takes the new value of a tracked field back to the old one. */
  lemma {:induction false} ReplayDiff<F(!new), V(!new)>(fields: seq<F>, was: F -> V, becomes: F -> V, entity: Id,
                                        version: nat, actor: Id, field: F, at: int)
    requires at < version
    ensures ValueAt(Rows(entity, version, actor, Diff(fields, was, becomes)), entity, field, at, becomes(field))
         == if field in fields then was(field) else becomes(field)
  {
    if fields != [] {
      ReplayDiff(fields[1..], was, becomes, entity, version, actor, field, at);
      var f := fields[0];
      if was(f) != becomes(f) {
        var diff := Diff(fields, was, becomes);
        assert diff[0] == Change(f, was(f), becomes(f)) && diff[1..] == Diff(fields[1..], was, becomes);
        var rows := Rows(entity, version, actor, diff);
        assert rows[1..] == Rows(entity, version, actor, diff[1..]);
      }
    }
  }

  /** A field is recorded exactly when it is tracked and its value differs. */
  lemma {:induction false} DiffRecorded<F(!new), V(!new)>(fields: seq<F>, was: F -> V, becomes: F -> V, entity: Id,
                                          version: nat, actor: Id, field: F, at: int)
    requires at < version
    ensures Untouched(Rows(entity, version, actor, Diff(fields, was, becomes)), entity, field, at)
       <==> (field !in fields || was(field) == becomes(field))
  {
    if fields != [] {
      DiffRecorded(fields[1..], was, becomes, entity, version, actor, field, at);
      var f := fields[0];
      var rest := Rows(entity, version, actor, Diff(fields[1..], was, becomes));
      if was(f) != becomes(f) {
        var diff := Diff(fields, was, becomes);
        assert diff[0] == Change(f, was(f), becomes(f)) && diff[1..] == Diff(fields[1..], was, becomes);
        var rows := Rows(entity, version, actor, diff);
        assert rows == [rows[0]] + rest;
        assert Newer(rows[0], entity, f, at);
      }
    }
  }

  /** `rows` record, under one version, each of `fields` that changes, once, with its value before and after. */
  ghost predicate Records<F(!new), V(!new)>(rows: seq<Row<F, V>>, entity: Id, version: nat, actor: Id, fields: seq<F>,
                                            was: F -> V, becomes: F -> V) {
    && (forall row | row in rows ::
          && row.entity == entity && row.version == version && row.actor == actor && row.field in fields
          && row.was == was(row.field) && row.becomes == becomes(row.field) && row.was != row.becomes)
    && (forall f | f in fields && was(f) != becomes(f) :: exists row :: row in rows && row.field == f)
    && forall i, j | 0 <= i < j < |rows| :: rows[i].field != rows[j].field
  }

  lemma {:induction false} DiffRecords<F(!new), V(!new)>(entity: Id, version: nat, actor: Id, fields: seq<F>,
                                                         was: F -> V, becomes: F -> V)
    requires Distinct(fields)
    ensures Records(Rows(entity, version, actor, Diff(fields, was, becomes)), entity, version, actor, fields, was,
                    becomes)
  {
    if fields != [] {
      var f := fields[0];
      DiffRecords(entity, version, actor, fields[1..], was, becomes);
      var rest := Rows(entity, version, actor, Diff(fields[1..], was, becomes));
      var rows := Rows(entity, version, actor, Diff(fields, was, becomes));
      assert f !in fields[1..] && fields == [f] + fields[1..];
      if was(f) != becomes(f) {
        var diff := Diff(fields, was, becomes);
        assert diff[0] == Change(f, was(f), becomes(f)) && diff[1..] == Diff(fields[1..], was, becomes);
        MoreRecorded(rest, entity, version, actor, fields, was, becomes);
        assert rows == [Row(entity, version, f, was(f), becomes(f), actor)] + rest;
      }
    }
  }

  lemma MoreRecorded<F(!new), V(!new)>(rest: seq<Row<F, V>>, entity: Id, version: nat, actor: Id, fields: seq<F>,
                                       was: F -> V, becomes: F -> V)
    requires fields != [] && fields[0] !in fields[1..] && was(fields[0]) != becomes(fields[0])
    requires Records(rest, entity, version, actor, fields[1..], was, becomes)
    ensures var f := fields[0];
            Records([Row(entity, version, f, was(f), becomes(f), actor)] + rest, entity, version, actor, fields, was,
                    becomes)
  {
    var f := fields[0];
    var first := Row(entity, version, f, was(f), becomes(f), actor);
    var rows := [first] + rest;
    assert fields == [f] + fields[1..];
    forall g | g in fields && was(g) != becomes(g) ensures exists row :: row in rows && row.field == g {
      if g == f {
        assert first in rows;
      } else {
        var row :| row in rest && row.field == g;
        assert row in rows;
      }
    }
    forall i, j | 0 <= i < j < |rows| ensures rows[i].field != rows[j].field {
      assert rows[j] == rest[j - 1] && rest[j - 1] in rest;
      if i > 0 { assert rows[i] == rest[i - 1]; }
    }
  }
}
