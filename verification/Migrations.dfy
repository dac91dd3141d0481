/**
 indexer/src/db.ts: the migration runner. SQL scripts are opaque: an engine takes a schema and a
 script to the new schema, or fails. The table `schema_migrations` is kept in key order.
 */
module Migrations {
  import opened Wrappers

  datatype Migration = Migration(version: nat, name: string, up: string, down: string)

  datatype Error = MissingFile(version: nat) | Failed(version: nat)

  datatype MigrationResult = MigrationResult(applied: seq<nat>, rolledBack: seq<nat>, pending: seq<nat>, dryRun: bool)

  /** A database: the applied versions, ascending, and everything else. */
  datatype Db<S> = Db(applied: seq<nat>, schema: S)

  type Engine<!S> = (S, string) -> Option<S>

  // ---------- the table of applied versions ----------

  predicate Ascending(versions: seq<nat>) { forall i, j :: 0 <= i < j < |versions| ==> versions[i] < versions[j] }

  function Insert(versions: seq<nat>, version: nat): seq<nat> {
    if versions == [] || versions[|versions| - 1] < version then versions + [version]
    else Insert(versions[..|versions| - 1], version) + [versions[|versions| - 1]]
  }

  function Delete(versions: seq<nat>, version: nat): seq<nat> {
    if versions == [] then []
    else
      var last := versions[|versions| - 1];
      Delete(versions[..|versions| - 1], version) + (if last == version then [] else [last])
  }

  lemma {:induction false} InsertAdds(versions: seq<nat>, version: nat)
    ensures forall v :: v in Insert(versions, version) <==> v in versions || v == version
  {
    if versions != [] && versions[|versions| - 1] >= version {
      var n := |versions| - 1;
      InsertAdds(versions[..n], version);
      assert versions == versions[..n] + [versions[n]];
    }
  }

  lemma {:induction false} InsertKeepsAscending(versions: seq<nat>, version: nat)
    requires Ascending(versions) && version !in versions
    ensures Ascending(Insert(versions, version))
  {
    if versions != [] && versions[|versions| - 1] >= version {
      var n := |versions| - 1;
      var front := versions[..n];
      InsertKeepsAscending(front, version);
      InsertAdds(front, version);
      var r := Insert(front, version);
      hide Insert;
      assert version < versions[n] by { assert versions[n] in versions; }
      forall i | 0 <= i < |r| ensures r[i] < versions[n] { assert r[i] in r; }
    }
  }

  lemma {:induction false} DeleteAbsent(versions: seq<nat>, version: nat)
    requires version !in versions
    ensures Delete(versions, version) == versions
  {
    if versions != [] {
      DeleteAbsent(versions[..|versions| - 1], version);
      assert versions == versions[..|versions| - 1] + [versions[|versions| - 1]];
    }
  }

  // ---------- running forward ----------

  /** What a sequence of transactions leaves, which versions committed, and the error that stopped it. */
  datatype Outcome<S> = Outcome(db: Db<S>, versions: seq<nat>, error: Option<Error>)

  /** One migration in one transaction: its script, then its row, whose key must be new. */
  function ApplyOne<S>(db: Db<S>, m: Migration, exec: Engine<S>): Option<Db<S>> {
    var schema := exec(db.schema, m.up);
    if schema.None? || m.version in db.applied then None
    else Some(Db(Insert(db.applied, m.version), schema.value))
  }

  function Forward<S>(db: Db<S>, pending: seq<Migration>, exec: Engine<S>): Outcome<S> {
    if pending == [] then Outcome(db, [], None)
    else
      var before := Forward(db, pending[..|pending| - 1], exec);
      var m := pending[|pending| - 1];
      if before.error.Some? then before
      else
        var after := ApplyOne(before.db, m, exec);
        if after.Some? then Outcome(after.value, before.versions + [m.version], None)
        else Outcome(before.db, before.versions, Some(Failed(m.version)))
  }

  function Versions(migrations: seq<Migration>): (r: seq<nat>)
    ensures |r| == |migrations| && forall i :: 0 <= i < |r| ==> r[i] == migrations[i].version
  {
    seq(|migrations|, i requires 0 <= i < |migrations| => migrations[i].version)
  }

  function Pending(migrations: seq<Migration>, applied: seq<nat>): seq<Migration> {
    if migrations == [] then []
    else
      var last := migrations[|migrations| - 1];
      Pending(migrations[..|migrations| - 1], applied) + (if last.version in applied then [] else [last])
  }

  // ---------- running backward ----------

  /** The file listed for a version, the last one if there are several. */
  function ByVersion(migrations: seq<Migration>, version: nat): Option<Migration> {
    if migrations == [] then None
    else if migrations[|migrations| - 1].version == version then Some(migrations[|migrations| - 1])
    else ByVersion(migrations[..|migrations| - 1], version)
  }

  /** The newest n applied versions, newest first. */
  function Newest(applied: seq<nat>, n: nat): seq<nat> {
    if n == 0 || applied == [] then [] else [applied[|applied| - 1]] + Newest(applied[..|applied| - 1], n - 1)
  }

  /** An empty down section changes nothing. */
  function Undo<S>(schema: S, m: Migration, exec: Engine<S>): Option<S> {
    if m.down == "" then Some(schema) else exec(schema, m.down)
  }

  function Backward<S>(db: Db<S>, versions: seq<nat>, migrations: seq<Migration>, dryRun: bool,
                       exec: Engine<S>): Outcome<S> {
    if versions == [] then Outcome(db, [], None)
    else
      var before := Backward(db, versions[..|versions| - 1], migrations, dryRun, exec);
      var version := versions[|versions| - 1];
      var m := ByVersion(migrations, version);
      if before.error.Some? then before
      else if m.None? then Outcome(before.db, before.versions, Some(MissingFile(version)))
      else if dryRun then Outcome(before.db, before.versions + [version], None)
      else
        var schema := Undo(before.db.schema, m.value, exec);
        if schema.None? then Outcome(before.db, before.versions, Some(Failed(version)))
        else Outcome(Db(Delete(before.db.applied, version), schema.value), before.versions + [version], None)
  }

  // ---------- the runner ----------

  class Database<S> {
    var applied: seq<nat>
    var schema: S

    constructor (schema: S)
      ensures View() == Db([], schema)
    {
      applied, this.schema := [], schema;
    }

    function View(): Db<S>
      reads this
    {
      Db(applied, schema)
    }

    method RunMigrations(migrations: seq<Migration>, dryRun: bool, rollback: int, exec: Engine<S>)
      returns (result: Result<MigrationResult, Error>)
      modifies this
      ensures rollback > 0 ==>
                var o := Backward(old(View()), Newest(old(applied), rollback), migrations, dryRun, exec);
                View() == o.db
                && result == if o.error.Some? then Err(o.error.value)
                    else Ok(MigrationResult([], o.versions, [], dryRun))
      ensures rollback <= 0 && dryRun ==>
                && View() == old(View())
                && result == Ok(MigrationResult([], [], Versions(Pending(migrations, old(applied))), true))
      ensures rollback <= 0 && !dryRun ==>
                var pending := Pending(migrations, old(applied));
                var o := Forward(old(View()), pending, exec);
                View() == o.db
                && result == if o.error.Some? then Err(o.error.value)
                             else Ok(MigrationResult(o.versions, [], Versions(pending), false))
    {
      hide ByVersion, Undo, Delete, Insert, Newest, Pending, Versions;
      ghost var before := View();
      if rollback > 0 {
        var rolledBack: seq<nat> := [];
        var toRollback := Newest(applied, rollback);
        for i := 0 to |toRollback|
          invariant Backward(before, toRollback[..i], migrations, dryRun, exec) == Outcome(View(), rolledBack, None)
        {
          assert toRollback[..i + 1][..i] == toRollback[..i];
          StopsAtError(before, toRollback, i + 1, migrations, dryRun, exec);
          var version := toRollback[i];
          var migration := ByVersion(migrations, version);
          if migration.None? { return Err(MissingFile(version)); }
          if !dryRun {
            var undone := Undo(schema, migration.value, exec);
            if undone.None? { return Err(Failed(version)); }
            schema := undone.value;
            applied := Delete(applied, version);
          }
          rolledBack := rolledBack + [version];
        }
        assert toRollback[..|toRollback|] == toRollback;
        return Ok(MigrationResult([], rolledBack, [], dryRun));
      }
      var pending := Pending(migrations, applied);
      if dryRun { return Ok(MigrationResult([], [], Versions(pending), true)); }
      var done: seq<nat> := [];
      for i := 0 to |pending|
        invariant Forward(before, pending[..i], exec) == Outcome(View(), done, None)
      {
        assert pending[..i + 1][..i] == pending[..i];
        ForwardStopsAtError(before, pending, i + 1, exec);
        var after := exec(schema, pending[i].up);
        if after.None? || pending[i].version in applied { return Err(Failed(pending[i].version)); }
        schema := after.value;
        applied := Insert(applied, pending[i].version);
        done := done + [pending[i].version];
      }
      assert pending[..|pending|] == pending;
      return Ok(MigrationResult(done, [], Versions(pending), false));
    }
  }

  lemma {:induction false} StopsAtError<S>(db: Db<S>, versions: seq<nat>, i: nat, migrations: seq<Migration>,
          dryRun: bool, exec: Engine<S>)
    requires i <= |versions|
    ensures Backward(db, versions[..i], migrations, dryRun, exec).error.Some?
            ==> Backward(db, versions, migrations, dryRun, exec)
                == Backward(db, versions[..i], migrations, dryRun, exec)
    decreases |versions|
  {
    if i < |versions| {
      StopsAtError(db, versions[..|versions| - 1], i, migrations, dryRun, exec);
      assert versions[..|versions| - 1][..i] == versions[..i];
    } else {
      assert versions[..i] == versions;
    }
  }

  lemma {:induction false} ForwardStopsAtError<S>(db: Db<S>, pending: seq<Migration>, i: nat, exec: Engine<S>)
    requires i <= |pending|
    ensures Forward(db, pending[..i], exec).error.Some?
            ==> Forward(db, pending, exec) == Forward(db, pending[..i], exec)
    decreases |pending|
  {
    if i < |pending| {
      ForwardStopsAtError(db, pending[..|pending| - 1], i, exec);
      assert pending[..|pending| - 1][..i] == pending[..i];
    } else {
      assert pending[..i] == pending;
    }
  }

  // ---------- a run that stops ----------

  lemma VersionsOfPrefix(ms: seq<Migration>, k: nat)
    requires k < |ms|
    ensures Versions(ms[..k + 1]) == Versions(ms[..k]) + [ms[k].version]
    ensures Versions(ms[..k + 1])[..k] == Versions(ms[..k]) && Versions([]) == []
  {
  }

  /** How one more migration continues a run. */
  lemma ForwardStep<S>(db: Db<S>, ms: seq<Migration>, k: nat, exec: Engine<S>)
    requires k < |ms|
    ensures var before := Forward(db, ms[..k], exec); var after := ApplyOne(before.db, ms[k], exec);
            Forward(db, ms[..k + 1], exec)
            == if before.error.Some? then before
               else if after.Some? then Outcome(after.value, before.versions + [ms[k].version], None)
               else Outcome(before.db, before.versions, Some(Failed(ms[k].version)))
  {
    hide ApplyOne;
    assert ms[..k + 1][..k] == ms[..k];
  }

  lemma NothingToRun<S>(db: Db<S>, exec: Engine<S>)
    ensures Forward(db, [], exec) == Outcome(db, [], None)
  {
  }

  /** The state of a run after its first k migrations, and what it says of the others. */
  predicate Prefix<S(==)>(db: Db<S>, ms: seq<Migration>, k: nat, o: Outcome<S>, exec: Engine<S>)
    requires k <= |ms|
  {
    var n := |o.versions|;
    && n <= k && o.versions == Versions(ms[..n])
    && Forward(db, ms[..n], exec) == Outcome(o.db, o.versions, None)
    && o.error == if n < k then Some(Failed(ms[n].version)) else None
  }

  lemma {:induction false} ForwardPrefix<S>(db: Db<S>, ms: seq<Migration>, k: nat, exec: Engine<S>)
    requires k <= |ms|
    ensures Prefix(db, ms, k, Forward(db, ms[..k], exec), exec)
  {
    hide Forward, Versions, ApplyOne;
    NothingToRun(db, exec);
    if k == 0 {
      assert ms[..0] == [] && Versions([]) == [];
    } else {
      ForwardPrefix(db, ms, k - 1, exec);
      ForwardStep(db, ms, k - 1, exec);
      VersionsOfPrefix(ms, k - 1);
    }
  }

  /** A forward run applies a prefix of the pending migrations, keeps the effect of exactly that
      prefix, and fails exactly when a migration is left, naming the first one. */
  lemma ForwardAppliesPrefix<S>(db: Db<S>, pending: seq<Migration>, exec: Engine<S>)
    ensures var o := Forward(db, pending, exec); var n := |o.versions|;
            && n <= |pending| && o.versions == Versions(pending[..n])
            && Forward(db, pending[..n], exec) == Outcome(o.db, o.versions, None)
            && o.error == if n < |pending| then Some(Failed(pending[n].version)) else None
  {
    hide Forward, Versions;
    assert pending[..|pending|] == pending;
    ForwardPrefix(db, pending, |pending|, exec);
  }

  /** The applied versions after a forward run are those before it and those it committed. */
  lemma {:induction false} ForwardAdds<S>(db: Db<S>, pending: seq<Migration>, exec: Engine<S>)
    requires Ascending(db.applied)
    ensures var o := Forward(db, pending, exec);
            Ascending(o.db.applied) && forall v :: v in o.db.applied <==> v in db.applied || v in o.versions
  {
    if pending != [] {
      ForwardAdds(db, pending[..|pending| - 1], exec);
      var before, version := Forward(db, pending[..|pending| - 1], exec), pending[|pending| - 1].version;
      InsertAdds(before.db.applied, version);
      if version !in before.db.applied { InsertKeepsAscending(before.db.applied, version); }
      hide Insert;
    }
  }

  lemma {:induction false} PendingIs(migrations: seq<Migration>, applied: seq<nat>)
    ensures forall m :: m in Pending(migrations, applied) <==> m in migrations && m.version !in applied
  {
    if migrations != [] {
      var n := |migrations| - 1;
      PendingIs(migrations[..n], applied);
      assert migrations == migrations[..n] + [migrations[n]];
    }
  }

  lemma {:induction false} NothingPending(migrations: seq<Migration>, applied: seq<nat>)
    requires forall m :: m in migrations ==> m.version in applied
    ensures Pending(migrations, applied) == []
  {
    if migrations != [] { NothingPending(migrations[..|migrations| - 1], applied); }
  }

  /** After a forward run without error nothing is pending, and another run changes nothing. */
  lemma SecondRunAppliesNothing<S>(db: Db<S>, migrations: seq<Migration>, exec: Engine<S>)
    requires Ascending(db.applied) && Forward(db, Pending(migrations, db.applied), exec).error.None?
    ensures var o := Forward(db, Pending(migrations, db.applied), exec);
            && Pending(migrations, o.db.applied) == []
            && Forward(o.db, Pending(migrations, o.db.applied), exec) == Outcome(o.db, [], None)
  {
    hide Forward, Pending, Ascending, Versions;
    var pending := Pending(migrations, db.applied);
    var o := Forward(db, pending, exec);
    ForwardAdds(db, pending, exec);
    SuccessVersions(db, pending, exec);
    PendingIs(migrations, db.applied);
    forall m | m in migrations ensures m.version in o.db.applied {
      if m.version !in db.applied {
        var i :| 0 <= i < |pending| && pending[i] == m;
        assert o.versions[i] == m.version;
      }
    }
    NothingPending(migrations, o.db.applied);
    NothingToRun(o.db, exec);
  }

  lemma SuccessVersions<S>(db: Db<S>, pending: seq<Migration>, exec: Engine<S>)
    requires Forward(db, pending, exec).error.None?
    ensures Forward(db, pending, exec).versions == Versions(pending)
  {
    hide Forward, Versions;
    ForwardAppliesPrefix(db, pending, exec);
    assert pending[..|pending|] == pending;
  }

  predicate InOrder(migrations: seq<Migration>) {
    forall i, j :: 0 <= i < j < |migrations| ==> migrations[i].version < migrations[j].version
  }

  lemma {:induction false} PendingTwice(migrations: seq<Migration>, before: seq<nat>, after: seq<nat>)
    requires forall v :: v in before ==> v in after
    ensures Pending(Pending(migrations, before), after) == Pending(migrations, after)
  {
    if migrations != [] {
      var n := |migrations| - 1;
      PendingTwice(migrations[..n], before, after);
      var p := Pending(migrations[..n], before);
      assert (p + [migrations[n]])[..|p|] == p;
      assert p + [] == p;
    }
  }

  lemma {:induction false} PendingInOrder(migrations: seq<Migration>, applied: seq<nat>)
    requires InOrder(migrations)
    ensures InOrder(Pending(migrations, applied))
  {
    if migrations != [] {
      var n := |migrations| - 1;
      PendingInOrder(migrations[..n], applied);
      PendingIs(migrations[..n], applied);
      var p := Pending(migrations[..n], applied);
      forall i | 0 <= i < |p| ensures p[i].version < migrations[n].version {
        assert p[i] in p;
      }
    }
  }

  lemma PendingStep(ms: seq<Migration>, k: nat, applied: seq<nat>)
    requires k < |ms|
    ensures Pending(ms[..k + 1], applied) == Pending(ms[..k], applied)
            + (if ms[k].version in applied then [] else [ms[k]])
  {
    assert ms[..k + 1][..k] == ms[..k];
  }

  /** Of migrations in order, those not among the applied first n are the others. */
  lemma {:induction false} PendingAfterPrefix(ms: seq<Migration>, n: nat, k: nat, applied: seq<nat>)
    requires n <= |ms| && k <= |ms|
    requires forall i :: 0 <= i < |ms| ==> (ms[i].version in applied <==> i < n)
    ensures Pending(ms[..k], applied) == if k <= n then [] else ms[n..k]
  {
    if k > 0 {
      PendingAfterPrefix(ms, n, k - 1, applied);
      PendingStep(ms, k - 1, applied);
      var taken := ms[k - 1].version in applied;
      assert taken <==> k <= n;
      hide *;
      OneMoreLeft(ms, n, k);
    }
  }

  lemma OneMoreLeft(ms: seq<Migration>, n: nat, k: nat)
    requires n <= |ms| && 0 < k <= |ms|
    ensures var left := if k - 1 <= n then [] else ms[n..k - 1];
            left + (if k <= n then [] else [ms[k - 1]]) == if k <= n then [] else ms[n..k]
  {
  }

  /** After a failed run the next one starts at the migration that failed. */
  lemma NextRunResumes<S>(db: Db<S>, migrations: seq<Migration>, exec: Engine<S>)
    requires Ascending(db.applied) && InOrder(migrations)
    ensures var pending := Pending(migrations, db.applied);
            var o := Forward(db, pending, exec);
            |o.versions| <= |pending| && Pending(migrations, o.db.applied) == pending[|o.versions|..]
  {
    hide Forward, Pending, Ascending, Versions, InOrder;
    var pending := Pending(migrations, db.applied);
    var o := Forward(db, pending, exec);
    var n := |o.versions|;
    ForwardAdds(db, pending, exec);
    ForwardAppliesPrefix(db, pending, exec);
    PendingIs(migrations, db.applied);
    PendingInOrder(migrations, db.applied);
    PendingTwice(migrations, db.applied, o.db.applied);
    PendingAfterPrefix(pending, n, |pending|, o.db.applied);
    assert pending[..|pending|] == pending && pending[n..|pending|] == pending[n..];
  }

  // ---------- back and forward again ----------

  /** The down section undoes what the up section did, whatever the schema. */
  ghost predicate Undoes<S(!new)>(m: Migration, exec: Engine<S>) {
    forall s :: exec(s, m.up).Some? ==> Undo(exec(s, m.up).value, m, exec) == Some(s)
  }

  ghost predicate AllUndo<S(!new)>(ms: seq<Migration>, exec: Engine<S>) {
    forall i :: 0 <= i < |ms| ==> Undoes(ms[i], exec)
  }

  /** The database after the first k migrations, from an empty one. */
  function Built<S>(base: S, ms: seq<Migration>, k: nat, exec: Engine<S>): Outcome<S>
    requires k <= |ms|
  {
    Forward(Db([], base), ms[..k], exec)
  }

  lemma {:induction false} BuiltVersions<S>(base: S, ms: seq<Migration>, k: nat, exec: Engine<S>)
    requires InOrder(ms) && k <= |ms| && Built(base, ms, k, exec).error.None?
    ensures Built(base, ms, k, exec).db.applied == Versions(ms[..k])
    ensures k > 0 ==> Built(base, ms, k - 1, exec).error.None?
    ensures k > 0 ==>
               exec(Built(base, ms, k - 1, exec).db.schema, ms[k - 1].up) == Some(Built(base, ms, k, exec).db.schema)
  {
    hide Forward, Versions;
    NothingToRun(Db([], base), exec);
    if k == 0 {
      assert ms[..0] == [] && Versions([]) == [];
    } else {
      ForwardStep(Db([], base), ms, k - 1, exec);
      BuiltVersions(base, ms, k - 1, exec);
      VersionsOfPrefix(ms, k - 1);
    }
  }

  lemma {:induction false} ForwardConcat<S>(db: Db<S>, a: seq<Migration>, b: seq<Migration>, exec: Engine<S>)
    requires Forward(db, a, exec).error.None?
    ensures var first := Forward(db, a, exec); var second := Forward(first.db, b, exec);
            Forward(db, a + b, exec) == Outcome(second.db, first.versions + second.versions, second.error)
  {
    hide Forward, ApplyOne;
    if b == [] {
      assert a + b == a;
      NothingToRun(Forward(db, a, exec).db, exec);
    } else {
      var k := |b| - 1;
      ForwardConcat(db, a, b[..k], exec);
      ForwardStep(db, a + b, |a| + k, exec);
      ForwardStep(Forward(db, a, exec).db, b, k, exec);
      assert (a + b)[..|a| + k] == a + b[..k] && (a + b)[..|a| + k + 1] == a + b && b[..k + 1] == b;
    }
  }

  lemma {:induction false} BackwardFront<S>(db: Db<S>, v: nat, vs: seq<nat>, migrations: seq<Migration>,
          exec: Engine<S>)
    requires Backward(db, [v], migrations, false, exec).error.None?
    ensures var first := Backward(db, [v], migrations, false, exec);
            var others := Backward(first.db, vs, migrations, false, exec);
            Backward(db, [v] + vs, migrations, false, exec) == Outcome(others.db, [v] + others.versions, others.error)
  {
    hide Backward, Undo, ByVersion, Delete;
    var first := Backward(db, [v], migrations, false, exec);
    if vs == [] {
      assert [v] + vs == [v] && [v][..0] == [];
      NoneRolledBack(db, migrations, exec);
      NoneRolledBack(first.db, migrations, exec);
      BackwardStep(db, [v], migrations, exec);
    } else {
      var k := |vs| - 1;
      BackwardFront(db, v, vs[..k], migrations, exec);
      assert ([v] + vs)[..|vs|] == [v] + vs[..k];
      BackwardStep(db, [v] + vs, migrations, exec);
      BackwardStep(first.db, vs, migrations, exec);
    }
  }

  lemma {:induction false} ByVersionFinds(ms: seq<Migration>, i: nat)
    requires InOrder(ms) && i < |ms|
    ensures ByVersion(ms, ms[i].version) == Some(ms[i])
    decreases |ms|
  {
    if i < |ms| - 1 { ByVersionFinds(ms[..|ms| - 1], i); }
  }

  lemma BackwardOne<S>(db: Db<S>, v: nat, migrations: seq<Migration>, exec: Engine<S>)
    requires ByVersion(migrations, v).Some? && Undo(db.schema, ByVersion(migrations, v).value, exec).Some?
    ensures Backward(db, [v], migrations, false, exec)
            == Outcome(Db(Delete(db.applied, v), Undo(db.schema, ByVersion(migrations, v).value, exec).value), [v],
                None)
  {
    hide ByVersion, Undo, Delete;
    assert [v][..0] == [] && [] + [v] == [v];
    assert Backward(db, [v][..0], migrations, false, exec) == Outcome(db, [], None);
  }

  lemma DeleteLast(versions: seq<nat>, v: nat)
    requires v !in versions
    ensures Delete(versions + [v], v) == versions
  {
    assert (versions + [v])[..|versions|] == versions;
    DeleteAbsent(versions, v);
  }

  /** Rolling back the newest migration applied leads to the database before it. */
  lemma RollBackOne<S(!new)>(base: S, ms: seq<Migration>, k: nat, exec: Engine<S>)
    requires InOrder(ms) && k < |ms| && Undoes(ms[k], exec) && Built(base, ms, k + 1, exec).error.None?
    ensures Built(base, ms, k, exec).error.None?
    ensures Backward(Built(base, ms, k + 1, exec).db, [ms[k].version], ms, false, exec)
            == Outcome(Built(base, ms, k, exec).db, [ms[k].version], None)
  {
    BuiltVersions(base, ms, k + 1, exec);
    BuiltVersions(base, ms, k, exec);
    ByVersionFinds(ms, k);
    VersionsOfPrefix(ms, k);
    assert ms[k].version !in Versions(ms[..k]);
    hide Built, Backward, ByVersion, Delete, Versions, InOrder, Undo;
    DeleteLast(Versions(ms[..k]), ms[k].version);
    var before, after := Built(base, ms, k, exec).db, Built(base, ms, k + 1, exec).db;
    assert exec(before.schema, ms[k].up).Some?;
    BackwardOne(after, ms[k].version, ms, exec);
  }

  lemma NewestStep(ms: seq<Migration>, k: nat, n: nat)
    requires 0 < k <= |ms| && n > 0
    ensures Newest(Versions(ms[..k]), n) == [ms[k - 1].version] + Newest(Versions(ms[..k - 1]), n - 1)
  {
    VersionsOfPrefix(ms, k - 1);
  }

  /** Rolling back the given versions leads from the first k migrations to the first `start`. */
  predicate RolledBack<S(==)>(base: S, ms: seq<Migration>, k: nat, start: nat, versions: seq<nat>, exec: Engine<S>)
    requires k <= |ms| && start <= |ms|
  {
    && Built(base, ms, k, exec).error.None? && Built(base, ms, start, exec).error.None?
    && Backward(Built(base, ms, k, exec).db, versions, ms, false, exec)
        == Outcome(Built(base, ms, start, exec).db, versions, None)
  }

  lemma RolledBackStep<S(!new)>(base: S, ms: seq<Migration>, k: nat, start: nat, versions: seq<nat>, exec: Engine<S>)
    requires InOrder(ms) && k < |ms| && start <= |ms| && Undoes(ms[k], exec)
    requires Built(base, ms, k + 1, exec).error.None? && RolledBack(base, ms, k, start, versions, exec)
    ensures RolledBack(base, ms, k + 1, start, [ms[k].version] + versions, exec)
  {
    hide Built, Backward, InOrder, Undoes;
    RollBackOne(base, ms, k, exec);
    BackwardFront(Built(base, ms, k + 1, exec).db, ms[k].version, versions, ms, exec);
  }

  /** Rolling back the newest n versions leads to the database n migrations earlier. */
  lemma {:induction false} RollBackMany<S(!new)>(base: S, ms: seq<Migration>, k: nat, n: nat, exec: Engine<S>)
    requires InOrder(ms) && k <= |ms| && AllUndo(ms, exec)
    requires Built(base, ms, k, exec).error.None?
    ensures RolledBack(base, ms, k, if n <= k then k - n else 0, Newest(Versions(ms[..k]), n), exec)
    decreases n
  {
    if n == 0 || k == 0 {
      NewestOfNothing(ms, k, n);
      NoneRolledBack(Built(base, ms, k, exec).db, ms, exec);
    } else {
      BuiltVersions(base, ms, k, exec);
      assert Undoes(ms[k - 1], exec);
      hide *;
      RollBackMany(base, ms, k - 1, n - 1, exec);
      RolledBackStep(base, ms, k - 1, if n <= k then k - n else 0, Newest(Versions(ms[..k - 1]), n - 1), exec);
      NewestStep(ms, k, n);
    }
  }

  lemma NewestOfNothing(ms: seq<Migration>, k: nat, n: nat)
    requires k <= |ms| && (n == 0 || k == 0)
    ensures Newest(Versions(ms[..k]), n) == []
  {
  }

  lemma NoneRolledBack<S>(db: Db<S>, migrations: seq<Migration>, exec: Engine<S>)
    ensures Backward(db, [], migrations, false, exec) == Outcome(db, [], None)
  {
  }

  /** From a database brought up to date by applying the migrations in order, each down undoing
      its up: rolling back n succeeds, and running forward then applies exactly the n again and
      restores the applied versions and the schema. */
  lemma RollbackThenForward<S(!new)>(base: S, ms: seq<Migration>, n: nat, exec: Engine<S>)
    requires InOrder(ms) && AllUndo(ms, exec)
    requires Forward(Db([], base), ms, exec).error.None?
    ensures var current := Forward(Db([], base), ms, exec).db;
            var start := if n <= |ms| then |ms| - n else 0;
            var back := Backward(current, Newest(current.applied, n), ms, false, exec);
            && back.error.None? && back.db.applied == Versions(ms[..start])
            && Forward(back.db, Pending(ms, back.db.applied), exec) == Outcome(current, Versions(ms[start..]), None)
  {
    var start := if n <= |ms| then |ms| - n else 0;
    assert ms[..|ms|] == ms;
    assert Built(base, ms, |ms|, exec) == Forward(Db([], base), ms, exec);
    hide Pending, Forward, Backward, Newest, Undoes, Versions, Built;
    BuiltVersions(base, ms, |ms|, exec);
    RollBackMany(base, ms, |ms|, n, exec);
    assert RolledBack(base, ms, |ms|, start, Newest(Versions(ms), n), exec);
    BuiltVersions(base, ms, start, exec);
    RestIsPending(ms, start);
    ForwardFrom(base, ms, start, exec);
  }

  lemma RestIsPending(ms: seq<Migration>, start: nat)
    requires InOrder(ms) && start <= |ms|
    ensures Pending(ms, Versions(ms[..start])) == ms[start..]
  {
    hide Pending;
    var applied := Versions(ms[..start]);
    forall i | 0 <= i < |ms| ensures ms[i].version in applied <==> i < start {
      if i < start { assert applied[i] == ms[i].version; }
    }
    PendingAfterPrefix(ms, start, |ms|, applied);
    assert ms[..|ms|] == ms && ms[start..|ms|] == ms[start..];
  }

  lemma ForwardFrom<S>(base: S, ms: seq<Migration>, start: nat, exec: Engine<S>)
    requires start <= |ms| && Built(base, ms, start, exec).error.None? && Forward(Db([], base), ms, exec).error.None?
    ensures Forward(Built(base, ms, start, exec).db, ms[start..], exec)
            == Outcome(Forward(Db([], base), ms, exec).db, Versions(ms[start..]), None)
  {
    hide Forward, Versions;
    assert ms[..start] + ms[start..] == ms;
    ForwardConcat(Db([], base), ms[..start], ms[start..], exec);
    SuccessVersions(Built(base, ms, start, exec).db, ms[start..], exec);
  }

  // ---------- dry runs ----------

  predicate AnyMissing(migrations: seq<Migration>, versions: seq<nat>) {
    exists i :: 0 <= i < |versions| && ByVersion(migrations, versions[i]).None?
  }

  lemma AnyMissingStep(migrations: seq<Migration>, versions: seq<nat>)
    requires versions != []
    ensures var k := |versions| - 1;
            AnyMissing(migrations, versions)
            <==> AnyMissing(migrations, versions[..k]) || ByVersion(migrations, versions[k]).None?
  {
    hide ByVersion;
    var k := |versions| - 1;
    if AnyMissing(migrations, versions[..k]) {
      var i :| 0 <= i < k && ByVersion(migrations, versions[..k][i]).None?;
      assert ByVersion(migrations, versions[i]).None?;
    }
    if AnyMissing(migrations, versions) {
      var i :| 0 <= i < |versions| && ByVersion(migrations, versions[i]).None?;
      assert i < k ==> ByVersion(migrations, versions[..k][i]).None?;
    }
  }

  /** A dry run of a rollback changes nothing and names every version a real one would undo; it
      stops exactly at a missing file. */
  lemma {:induction false} DryRollback<S>(db: Db<S>, versions: seq<nat>, migrations: seq<Migration>, exec: Engine<S>)
    ensures var dry, actual := Backward(db, versions, migrations, true, exec),
            Backward(db, versions, migrations, false, exec);
            && dry.db == db
            && (actual.error.None? ==> dry.error.None? && dry.versions == actual.versions == versions)
            && (dry.error.Some? <==> AnyMissing(migrations, versions))
  {
    hide ByVersion, Undo, Delete, AnyMissing;
    if versions == [] {
      assert !AnyMissing(migrations, []) by { NoneMissing(migrations); }
    } else {
      var k := |versions| - 1;
      DryRollback(db, versions[..k], migrations, exec);
      AnyMissingStep(migrations, versions);
      assert versions == versions[..k] + [versions[k]];
    }
  }

  lemma NoneMissing(migrations: seq<Migration>)
    ensures !AnyMissing(migrations, [])
  {
  }

  // ---------- what runs, and how far ----------

  /** The schema after the scripts, one after the other, if none fails. */
  function RunAll<S>(schema: S, scripts: seq<string>, exec: Engine<S>): Option<S> {
    if scripts == [] then Some(schema)
    else
      match RunAll(schema, scripts[..|scripts| - 1], exec)
      case None => None
      case Some(before) => exec(before, scripts[|scripts| - 1])
  }

  function Ups(ms: seq<Migration>): (scripts: seq<string>)
    ensures |scripts| == |ms| && forall i :: 0 <= i < |ms| ==> scripts[i] == ms[i].up
  {
    seq(|ms|, i requires 0 <= i < |ms| => ms[i].up)
  }

  /** No version is applied yet, nor listed twice. */
  predicate AllNew(ms: seq<Migration>, applied: seq<nat>) {
    && (forall i :: 0 <= i < |ms| ==> ms[i].version !in applied)
    && (forall i, j :: 0 <= i < j < |ms| ==> ms[i].version != ms[j].version)
  }

  predicate CanRun<S>(db: Db<S>, ms: seq<Migration>, exec: Engine<S>) {
    RunAll(db.schema, Ups(ms), exec).Some? && AllNew(ms, db.applied)
  }

  lemma RunAllNext<S>(schema: S, ms: seq<Migration>, k: nat, exec: Engine<S>)
    requires k < |ms|
    ensures RunAll(schema, Ups(ms[..k + 1]), exec)
            == match RunAll(schema, Ups(ms[..k]), exec) case None => None case Some(s) => exec(s, ms[k].up)
  {
    assert Ups(ms[..k + 1])[..k] == Ups(ms[..k]);
  }

  lemma NewNext(ms: seq<Migration>, k: nat, applied: seq<nat>)
    requires k < |ms|
    ensures AllNew(ms[..k + 1], applied)
            <==> AllNew(ms[..k], applied) && ms[k].version !in applied && ms[k].version !in Versions(ms[..k])
  {
    var p, q := ms[..k + 1], ms[..k];
    assert p[k] == ms[k] && forall i :: 0 <= i < k ==> p[i] == q[i] == ms[i];
    if AllNew(p, applied) {
      forall i | 0 <= i < k ensures q[i].version != ms[k].version { assert p[i].version != p[k].version; }
    }
    if ms[k].version !in Versions(q) {
      forall i | 0 <= i < k ensures q[i].version != ms[k].version { assert Versions(q)[i] == q[i].version; }
    }
  }

  /** One script more: it fails, or its version is taken, or it is applied. */
  lemma ApplyNext<S>(db: Db<S>, ms: seq<Migration>, k: nat, exec: Engine<S>)
    requires k < |ms| && CanRun(db, ms[..k], exec) && Ascending(db.applied)
    requires Forward(db, ms[..k], exec).error.None? && Forward(db, ms[..k], exec).versions == Versions(ms[..k])
    requires Forward(db, ms[..k], exec).db.schema == RunAll(db.schema, Ups(ms[..k]), exec).value
    ensures ApplyOne(Forward(db, ms[..k], exec).db, ms[k], exec).Some? <==> CanRun(db, ms[..k + 1], exec)
    ensures CanRun(db, ms[..k + 1], exec) ==>
              ApplyOne(Forward(db, ms[..k], exec).db, ms[k], exec).value.schema
              == RunAll(db.schema, Ups(ms[..k + 1]), exec).value
  {
    hide Forward, RunAll, Ups, Insert, Ascending, AllNew, Versions;
    ForwardAdds(db, ms[..k], exec);
    RunAllNext(db.schema, ms, k, exec);
    NewNext(ms, k, db.applied);
  }

  lemma NothingRuns<S>(db: Db<S>, exec: Engine<S>)
    ensures CanRun(db, [], exec) && Forward(db, [], exec) == Outcome(db, Versions([]), None)
    ensures RunAll(db.schema, Ups([]), exec) == Some(db.schema)
  {
    assert Ups([]) == [] && Versions([]) == [];
  }

  lemma {:induction false} RunsWhileItCan<S>(db: Db<S>, ms: seq<Migration>, k: nat, exec: Engine<S>)
    requires k <= |ms| && CanRun(db, ms[..k], exec) && Ascending(db.applied)
    ensures Forward(db, ms[..k], exec).error.None? && Forward(db, ms[..k], exec).versions == Versions(ms[..k])
    ensures Forward(db, ms[..k], exec).db.schema == RunAll(db.schema, Ups(ms[..k]), exec).value
  {
    hide Forward, RunAll, ApplyOne, AllNew, CanRun, Versions, Ups, Ascending;
    if k == 0 {
      assert ms[..0] == [];
      NothingRuns(db, exec);
    } else {
      ShorterRuns(db, ms, k - 1, k, exec);
      RunsWhileItCan(db, ms, k - 1, exec);
      ApplyNext(db, ms, k - 1, exec);
      ForwardStep(db, ms, k - 1, exec);
      VersionsOfPrefix(ms, k - 1);
    }
  }

  lemma StopsWhereItCannot<S>(db: Db<S>, ms: seq<Migration>, n: nat, exec: Engine<S>)
    requires n < |ms| && CanRun(db, ms[..n], exec) && !CanRun(db, ms[..n + 1], exec) && Ascending(db.applied)
    ensures Forward(db, ms, exec)
            == Outcome(Forward(db, ms[..n], exec).db, Versions(ms[..n]), Some(Failed(ms[n].version)))
  {
    hide Forward, RunAll, ApplyOne, AllNew, CanRun, Versions, Ups, Ascending;
    RunsWhileItCan(db, ms, n, exec);
    ApplyNext(db, ms, n, exec);
    ForwardStep(db, ms, n, exec);
    ForwardStopsAtError(db, ms, n + 1, exec);
  }

  /** A forward run goes as far as it can: it commits the longest prefix of the pending migrations
      whose scripts run one after the other and whose versions are new, and leaves their schema. */
  lemma ForwardGoesAsFarAsItCan<S>(db: Db<S>, pending: seq<Migration>, exec: Engine<S>)
    requires Ascending(db.applied)
    ensures var o := Forward(db, pending, exec); var n := |o.versions|;
            && n <= |pending| && CanRun(db, pending[..n], exec)
            && Some(o.db.schema) == RunAll(db.schema, Ups(pending[..n]), exec)
            && (n < |pending| ==> !CanRun(db, pending[..n + 1], exec))
            && (o.error.None? <==> CanRun(db, pending, exec))
  {
    var n := Longest(db, pending, |pending|, exec);
    RunsWhileItCan(db, pending, n, exec);
    assert RunAll(db.schema, Ups(pending[..n]), exec).Some?;
    hide Forward, RunAll, AllNew, CanRun, Ups, Ascending;
    assert |Versions(pending[..n])| == n;
    if n < |pending| {
      StopsWhereItCannot(db, pending, n, exec);
      if CanRun(db, pending, exec) {
        assert pending[..|pending|] == pending;
        ShorterRuns(db, pending, n + 1, |pending|, exec);
      }
    } else {
      assert pending[..n] == pending;
    }
  }

  /** The longest prefix that runs. */
  lemma {:induction false} Longest<S>(db: Db<S>, ms: seq<Migration>, k: nat, exec: Engine<S>) returns (n: nat)
    requires k <= |ms|
    ensures n <= k && CanRun(db, ms[..n], exec) && (n < k ==> !CanRun(db, ms[..n + 1], exec))
  {
    hide CanRun;
    if k == 0 {
      assert ms[..0] == [];
      NothingRuns(db, exec);
      n := 0;
    } else {
      n := Longest(db, ms, k - 1, exec);
      if n == k - 1 && CanRun(db, ms[..k], exec) { n := k; }
    }
  }

  lemma {:induction false} ShorterRuns<S>(db: Db<S>, ms: seq<Migration>, n: nat, k: nat, exec: Engine<S>)
    requires n <= k <= |ms| && CanRun(db, ms[..k], exec)
    ensures CanRun(db, ms[..n], exec)
    decreases k
  {
    if n < k {
      hide RunAll, Ups, AllNew, Versions;
      RunAllNext(db.schema, ms, k - 1, exec);
      NewNext(ms, k - 1, db.applied);
      ShorterRuns(db, ms, n, k - 1, exec);
    }
  }

  /** The newest n applied versions are the last n, last first. */
  lemma {:induction false} NewestAreLast(applied: seq<nat>, n: nat)
    ensures |Newest(applied, n)| == if n < |applied| then n else |applied|
    ensures forall i :: 0 <= i < |Newest(applied, n)| ==> Newest(applied, n)[i] == applied[|applied| - 1 - i]
  {
    if n > 0 && applied != [] { NewestAreLast(applied[..|applied| - 1], n - 1); }
  }

  /** The schema after the down sections of the versions in turn; an empty one changes nothing. */
  function UndoAll<S>(schema: S, versions: seq<nat>, migrations: seq<Migration>, exec: Engine<S>): Option<S> {
    if versions == [] then Some(schema)
    else
      match UndoAll(schema, versions[..|versions| - 1], migrations, exec)
      case None => None
      case Some(before) =>
        match ByVersion(migrations, versions[|versions| - 1])
        case None => None
        case Some(m) => if m.down == "" then Some(before) else exec(before, m.down)
  }

  lemma {:induction false} DeleteRemoves(versions: seq<nat>, version: nat)
    ensures forall v :: v in Delete(versions, version) <==> v in versions && v != version
  {
    if versions != [] {
      DeleteRemoves(versions[..|versions| - 1], version);
      assert versions == versions[..|versions| - 1] + [versions[|versions| - 1]];
    }
  }

  /** How one more version continues a rollback. */
  lemma BackwardStep<S>(db: Db<S>, versions: seq<nat>, migrations: seq<Migration>, exec: Engine<S>)
    requires versions != []
    ensures var before := Backward(db, versions[..|versions| - 1], migrations, false, exec);
            var version := versions[|versions| - 1];
            var m := ByVersion(migrations, version);
            Backward(db, versions, migrations, false, exec)
            == if before.error.Some? then before
               else if m.None? then Outcome(before.db, before.versions, Some(MissingFile(version)))
               else
                 match Undo(before.db.schema, m.value, exec)
                 case None => Outcome(before.db, before.versions, Some(Failed(version)))
                 case Some(schema) => Outcome(Db(Delete(before.db.applied, version), schema),
                                              before.versions + [version], None)
  {
  }

  lemma UndoneStep<S>(schema: S, versions: seq<nat>, migrations: seq<Migration>, exec: Engine<S>)
    requires versions != []
    ensures var before := UndoAll(schema, versions[..|versions| - 1], migrations, exec);
            var m := ByVersion(migrations, versions[|versions| - 1]);
            UndoAll(schema, versions, migrations, exec)
            == if before.None? || m.None? then None else Undo(before.value, m.value, exec)
  {
  }

  /** A rollback succeeds if and only if every version has its file and the down sections run one
      after the other, and leaves their schema. */
  lemma {:induction false} BackwardSucceedsIff<S>(db: Db<S>, versions: seq<nat>, migrations: seq<Migration>,
                                                  exec: Engine<S>)
    ensures var o := Backward(db, versions, migrations, false, exec);
            var undone := UndoAll(db.schema, versions, migrations, exec);
            && (o.error.None? <==> undone.Some?)
            && (o.error.None? ==> o.versions == versions && o.db.schema == undone.value)
  {
    if versions == [] {
      NoneRolledBack(db, migrations, exec);
    } else {
      hide Backward, UndoAll, ByVersion, Delete, Undo;
      BackwardSucceedsIff(db, versions[..|versions| - 1], migrations, exec);
      BackwardStep(db, versions, migrations, exec);
      UndoneStep(db.schema, versions, migrations, exec);
      assert versions == versions[..|versions| - 1] + [versions[|versions| - 1]];
    }
  }

  /** Whether it succeeds or not, it removes the versions it rolled back from those applied, and no
      others. */
  lemma {:induction false} BackwardRemoves<S>(db: Db<S>, versions: seq<nat>, migrations: seq<Migration>,
                                              exec: Engine<S>)
    ensures var o := Backward(db, versions, migrations, false, exec);
            forall v :: v in o.db.applied <==> v in db.applied && v !in o.versions
  {
    if versions == [] {
      NoneRolledBack(db, migrations, exec);
    } else {
      hide Backward, ByVersion, Delete, Undo;
      BackwardRemoves(db, versions[..|versions| - 1], migrations, exec);
      BackwardStep(db, versions, migrations, exec);
      DeleteRemoves(Backward(db, versions[..|versions| - 1], migrations, false, exec).db.applied,
          versions[|versions| - 1]);
    }
  }
}
