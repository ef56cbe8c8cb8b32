/** The migration runner (internal/database/database.go), over runs that may fail at any
    statement or be cut off. Migrations are transformers of the schema that may fail. */
module Migrations {
  import opened Common

  /** All migrations ever written, in order, what they start from, and whether a schema has the
      schema_version table. */
  datatype History<!S> = History(empty: S, steps: seq<S -> Option<S>>, hasVersionTable: S -> bool)

  /** The schema after the first v migrations, if they succeed. */
  function Composed<S>(h: History<S>, v: nat): Option<S>
    requires v <= |h.steps|
  {
    if v == 0 then Some(h.empty)
    else match Composed(h, v - 1)
      case None => None
      case Some(s) => h.steps[v - 1](s)
  }

  /** Every migration succeeds on what its predecessors left; the version table is there from the
      first one on. */
  ghost predicate Composable<S>(h: History<S>) {
    && !h.hasVersionTable(h.empty)
    && (forall v: nat :: v <= |h.steps| ==> Composed(h, v).Some?)
    && (forall v: nat :: 0 < v <= |h.steps| ==> h.hasVersionTable(Composed(h, v).value))
  }

  /** The first migration creates the version table, and so fails where that table is. */
  ghost predicate FirstCreatesVersionTable<S(!new)>(h: History<S>) {
    |h.steps| > 0 ==> forall s :: h.hasVersionTable(s) ==> h.steps[0](s).None?
  }

  /** What happens to one transaction of a run. Cut is the end of the process; applied says
      whether the server committed all the same. */
  datatype Attempt =
    | Fine | BeginFails | MigrationFails | TruncateFails | InsertFails
    | CommitFails(applied: bool) | Cut(applied: bool)

  datatype Outcome = Nil | Failed(newVersion: int) | CutOff

  /** The schema, the row of schema_version, and the migrations committed so far. */
  datatype Stored<S> = Stored(schema: S, version: Option<nat>, committed: seq<int>)

  // ----- What a run does -----

  /** The transaction reaches its commit and the server applies it. */
  predicate Applies<S>(h: History<S>, schema: S, version: nat, attempt: Attempt)
    requires version < |h.steps|
  {
    && h.steps[version](schema).Some? && h.hasVersionTable(h.steps[version](schema).value)
    && (attempt.Fine? || attempt == CommitFails(true) || attempt == Cut(true))
  }

  function AfterOne<S>(h: History<S>, st: Stored<S>, version: nat, attempt: Attempt): Stored<S>
    requires version < |h.steps|
  {
    if Applies(h, st.schema, version, attempt)
    then Stored(h.steps[version](st.schema).value, Some(version + 1), st.committed + [version + 1])
    else st
  }

  function OutcomeOfOne<S>(h: History<S>, st: Stored<S>, version: nat, attempt: Attempt): Outcome
    requires version < |h.steps|
  {
    if attempt == Cut(false) || (attempt == Cut(true) && Applies(h, st.schema, version, attempt)) then CutOff
    else if attempt.Fine? && Applies(h, st.schema, version, attempt) then Nil
    else Failed(version + 1)
  }

  /** The loop from a version on. */
  function AfterRun<S>(h: History<S>, st: Stored<S>, version: nat, schemaVersion: nat,
                       attempts: int -> Attempt): (Stored<S>, Outcome)
    requires schemaVersion <= |h.steps|
    decreases schemaVersion - version
  {
    if version >= schemaVersion then (st, Nil)
    else if OutcomeOfOne(h, st, version, attempts(version)).Nil?
    then AfterRun(h, AfterOne(h, st, version, attempts(version)), version + 1, schemaVersion, attempts)
    else (AfterOne(h, st, version, attempts(version)), OutcomeOfOne(h, st, version, attempts(version)))
  }

  /** SELECT version: an error of any kind, a missing table included, leaves 0. */
  function ReadVersion(version: Option<nat>, readFails: bool): nat {
    if readFails || version.None? then 0 else version.value
  }

  class Database<S(==,!new)> {
    var schema: S
    var version: Option<nat>
    ghost var committed: seq<int>

    ghost function State(): Stored<S>
      reads this
    {
      Stored(schema, version, committed)
    }

    constructor (h: History<S>)
      ensures State() == Stored(h.empty, None, [])
    {
      schema := h.empty;
      version := None;
      committed := [];
    }

    /** One round of the loop: migrations[version] in a transaction of its own. Schema and version
        move together by that one migration, or not at all. */
    method MigrateOne(h: History<S>, version: nat, attempt: Attempt) returns (outcome: Outcome)
      requires version < |h.steps|
      modifies this
      ensures State() == AfterOne(h, old(State()), version, attempt)
      ensures outcome == OutcomeOfOne(h, old(State()), version, attempt)
      ensures || State() == old(State())
              || (&& h.steps[version](old(schema)) == Some(schema) && this.version == Some(version + 1)
                  && committed == old(committed) + [version + 1])
      ensures outcome.Nil? ==> State() != old(State())
      ensures State() != old(State()) <==>
                && h.steps[version](old(schema)).Some? && h.hasVersionTable(h.steps[version](old(schema)).value)
                && attempt in {Fine, CommitFails(true), Cut(true)}
      ensures outcome.Nil? <==> attempt.Fine? && State() != old(State())
      ensures outcome.CutOff? <==> attempt == Cut(false) || (attempt == Cut(true) && State() != old(State()))
      ensures outcome.Failed? ==> outcome.newVersion == version + 1
    {
      var newVersion := version + 1;
      if attempt == Cut(false) {
        return CutOff;   // wherever before the commit
      }
      if attempt.BeginFails? {
        return Failed(newVersion);
      }
      if attempt.MigrationFails? {
        return Failed(newVersion);
      }
      var changed := h.steps[version](schema);
      if changed.None? {
        return Failed(newVersion);
      }
      if attempt.TruncateFails? || !h.hasVersionTable(changed.value) {
        return Failed(newVersion);
      }
      if attempt.InsertFails? {
        return Failed(newVersion);
      }
      if attempt == CommitFails(false) {
        return Failed(newVersion);
      }
      schema := changed.value;
      this.version := Some(newVersion);
      committed := committed + [newVersion];
      outcome := if attempt.Fine? then Nil else if attempt.Cut? then CutOff else Failed(newVersion);
    }

    /** Migrate, for a program that knows the first schemaVersion migrations. Wherever the run
        fails or is cut off, the schema is again that of a number of migrations committed once and
        in order, with this number stored; nil means that they are all the program knows. */
    method Migrate(h: History<S>, schemaVersion: nat, readFails: bool,
                   attempts: int -> Attempt) returns (outcome: Outcome)
      requires schemaVersion <= |h.steps|
      modifies this
      ensures (State(), outcome) == AfterRun(h, old(State()), ReadVersion(old(version), readFails), schemaVersion, attempts)
      ensures Composable(h) && FirstCreatesVersionTable(h) && At(h, old(State()), |old(committed)|) ==>
                At(h, State(), |committed|) && |committed| >= |old(committed)| && (outcome.Nil? ==> |committed| >= schemaVersion)
      ensures 0 < schemaVersion && (readFails || old(version).None?) && attempts(0).BeginFails? ==> outcome == Failed(1)
      ensures !readFails && old(version).Some? && old(version).value >= schemaVersion ==>
                outcome.Nil? && State() == old(State())
    {
      if Composable(h) && FirstCreatesVersionTable(h) && At(h, State(), |committed|) {
        ghost var v := MigrateKeepsInvariant(h, State(), |committed|, schemaVersion, readFails, attempts);
      }
      var version := ReadVersion(this.version, readFails);
      ghost var start := version;
      while version < schemaVersion
        invariant AfterRun(h, State(), version, schemaVersion, attempts) == AfterRun(h, old(State()), start, schemaVersion, attempts)
        decreases schemaVersion - version
      {
        outcome := MigrateOne(h, version, attempts(version));
        if !outcome.Nil? {
          return;
        }
        version := version + 1;
      }
      outcome := Nil;
    }

    /** IsSchemaUpToDate: true for a nil error. */
    predicate IsSchemaUpToDate(schemaVersion: nat, readFails: bool)
      reads this
      ensures IsSchemaUpToDate(schemaVersion, readFails) <==>
                schemaVersion == 0 || (!readFails && version.Some? && schemaVersion <= version.value)
    {
      ReadVersion(version, readFails) >= schemaVersion
    }
  }

  // ----- The invariant: a composition of the first v migrations, with v stored -----

  function FirstNumbers(v: nat): seq<int> { seq(v, i requires 0 <= i < v => i + 1) }

  /** The schema is that of the first v migrations, v is stored, and each of them was committed
      once and in order. */
  ghost predicate At<S>(h: History<S>, st: Stored<S>, v: nat) {
    && v <= |h.steps|
    && Composed(h, v) == Some(st.schema)
    && st.version == (if v == 0 then None else Some(v))
    && st.committed == FirstNumbers(v)
  }

  lemma OneMoreMigration<S>(h: History<S>, st: Stored<S>, v: nat, attempt: Attempt)
    requires Composable(h) && At(h, st, v) && v < |h.steps|
    ensures attempt.Fine? ==> OutcomeOfOne(h, st, v, attempt).Nil?
    ensures OutcomeOfOne(h, st, v, attempt).Nil? ==> At(h, AfterOne(h, st, v, attempt), v + 1)
    ensures At(h, AfterOne(h, st, v, attempt), v) || At(h, AfterOne(h, st, v, attempt), v + 1)
  {
    assert Composed(h, v + 1) == h.steps[v](st.schema);
    assert FirstNumbers(v + 1) == FirstNumbers(v) + [v + 1];
  }

  /** A run that starts where the schema is leaves it at the composition of some more migrations;
      nil means all that the program knows; without faults the result is nil. */
  lemma {:induction false} RunAdvances<S>(h: History<S>, st: Stored<S>, v: nat, schemaVersion: nat,
                                          attempts: int -> Attempt)
    returns (v': nat)
    requires Composable(h) && At(h, st, v) && schemaVersion <= |h.steps|
    ensures var r := AfterRun(h, st, v, schemaVersion, attempts);
            && At(h, r.0, v') && v <= v' <= Max(v, schemaVersion)
            && (v' == v ==> r.0 == st)
            && (r.1.Nil? ==> v' >= schemaVersion)
            && (r.1.Nil? <== v >= schemaVersion || forall i :: attempts(i).Fine?)
    decreases schemaVersion - v
  {
    v' := v;
    if v < schemaVersion {
      OneMoreMigration(h, st, v, attempts(v));
      var one := AfterOne(h, st, v, attempts(v));
      if OutcomeOfOne(h, st, v, attempts(v)).Nil? {
        v' := RunAdvances(h, one, v + 1, schemaVersion, attempts);
      } else if At(h, one, v + 1) {
        v' := v + 1;
      }
    }
  }

  // ----- Reading an unreadable version as 0 -----

  ghost predicate Distinct(s: seq<int>) {
    forall i, j :: 0 <= i < j < |s| ==> s[i] != s[j]
  }

  lemma {:induction false} CommittedGrows<S>(h: History<S>, st: Stored<S>, version: nat, schemaVersion: nat,
                                             attempts: int -> Attempt)
    requires schemaVersion <= |h.steps|
    ensures st.committed <= AfterRun(h, st, version, schemaVersion, attempts).0.committed
    decreases schemaVersion - version
  {
    if version < schemaVersion {
      CommittedGrows(h, AfterOne(h, st, version, attempts(version)), version + 1, schemaVersion, attempts);
    }
  }

  /** Exactly when a run that takes an unreadable version for 0 repeats no migration, for any
      history: the program knows none, or its first transaction is not applied. With a server that
      applies it, that is the first migration failing on the schema that is there, or leaving no
      version table. Then the run has changed nothing. */
  lemma {:induction false} RestartIsHarmlessExactlyWhen<S>(h: History<S>, st: Stored<S>, v: nat, schemaVersion: nat,
                                        attempts: int -> Attempt)
    requires At(h, st, v) && v > 0 && schemaVersion <= |h.steps|
    ensures var r := AfterRun(h, st, ReadVersion(st.version, true), schemaVersion, attempts);
            && (Distinct(r.0.committed) <==> schemaVersion == 0 || !Applies(h, st.schema, 0, attempts(0)))
            && (Distinct(r.0.committed) ==> r.0 == st)
  {
    assert Distinct(st.committed);
    if schemaVersion > 0 && Applies(h, st.schema, 0, attempts(0)) {
      var one := AfterOne(h, st, 0, attempts(0));
      assert one.committed[0] == 1 && one.committed[v] == 1;
      CommittedGrows(h, one, 1, schemaVersion, attempts);
      var r := AfterRun(h, st, 0, schemaVersion, attempts).0;
      assert one.committed <= r.committed && r.committed[0] == 1 && r.committed[v] == 1;
    }
  }

  /** Migrate keeps the invariant whether or not the version can be read, because the first
      migration fails on a schema that has the version table. */
  lemma MigrateKeepsInvariant<S(!new)>(h: History<S>, st: Stored<S>, v: nat, schemaVersion: nat, readFails: bool,
                                       attempts: int -> Attempt)
    returns (v': nat)
    requires Composable(h) && FirstCreatesVersionTable(h) && At(h, st, v) && schemaVersion <= |h.steps|
    ensures var r := AfterRun(h, st, ReadVersion(st.version, readFails), schemaVersion, attempts);
            && At(h, r.0, v') && v <= v' <= Max(v, schemaVersion)
            && (v' == v ==> r.0 == st)
            && (r.1.Nil? ==> v' >= schemaVersion)
            && (r.1.Nil? <== !readFails && v >= schemaVersion)
            && (r.1.Nil? <== (!readFails || v == 0) && forall i :: attempts(i).Fine?)
  {
    if readFails && v > 0 {
      v' := v;
      RestartIsHarmlessExactlyWhen(h, st, v, schemaVersion, attempts);
      assert h.hasVersionTable(st.schema) && h.steps[0](st.schema).None?;
    } else {
      assert ReadVersion(st.version, readFails) == v;
      v' := RunAdvances(h, st, v, schemaVersion, attempts);
    }
  }

  /** One run: the program's number of migrations, and what happens to it. */
  datatype Run = Run(schemaVersion: nat, readFails: bool, attempts: int -> Attempt)

  /** No program of the runs is newer than the schema. */
  ghost predicate NoneNewer(runs: seq<Run>, start: nat) {
    forall r :: r in runs ==> r.schemaVersion <= start
  }

  ghost predicate AllReadVersion(runs: seq<Run>) {
    forall r :: r in runs ==> !r.readFails
  }

  method OneRun<S(==,!new)>(db: Database<S>, h: History<S>, run: Run, ghost v: nat) returns (outcome: Outcome,
                  ghost v': nat)
    requires Composable(h) && FirstCreatesVersionTable(h) && At(h, db.State(), v) && run.schemaVersion <= |h.steps|
    modifies db
    ensures At(h, db.State(), v') && v <= v' && (outcome.Nil? ==> run.schemaVersion <= v')
    ensures run.schemaVersion <= v ==> v' == v && db.State() == old(db.State()) && (!run.readFails ==> outcome.Nil?)
  {
    ghost var before := db.State();
    outcome := db.Migrate(h, run.schemaVersion, run.readFails, run.attempts);
    v' := MigrateKeepsInvariant(h, before, v, run.schemaVersion, run.readFails, run.attempts);
  }

  /** Any sequence of runs, also of newer and older programs, leaves the schema at the
      composition of the first v migrations, with v stored and each of them committed once and in
      order. A run that returns nil leaves a schema that is up to date for its program, and
      further runs of programs no newer than the schema change nothing. */
  method Operate<S(==,!new)>(db: Database<S>, h: History<S>, runs: seq<Run>, ghost start: nat)
    returns (outcomes: seq<Outcome>, ghost v: nat)
    requires Composable(h) && FirstCreatesVersionTable(h) && At(h, db.State(), start)
    requires forall r :: r in runs ==> r.schemaVersion <= |h.steps|
    modifies db
    ensures At(h, db.State(), v) && start <= v && |outcomes| == |runs|
    ensures forall i :: 0 <= i < |runs| && outcomes[i].Nil? ==> db.IsSchemaUpToDate(runs[i].schemaVersion, false)
    ensures NoneNewer(runs, start) ==> db.State() == old(db.State())
    ensures NoneNewer(runs, start) && AllReadVersion(runs) ==>
              forall i :: 0 <= i < |runs| ==> outcomes[i].Nil?
  {
    outcomes := [];
    v := start;
    for i := 0 to |runs|
      invariant At(h, db.State(), v) && start <= v && |outcomes| == i
      invariant forall j :: 0 <= j < i && outcomes[j].Nil? ==> runs[j].schemaVersion <= v
      invariant NoneNewer(runs, start) ==> v == start && db.State() == old(db.State())
      invariant NoneNewer(runs, start) && AllReadVersion(runs) ==> forall j :: 0 <= j < i ==> outcomes[j].Nil?
    {
      var run := runs[i];
      assert run in runs;
      var outcome;
      outcome, v := OneRun(db, h, run, v);
      outcomes := outcomes + [outcome];
    }
  }
}
