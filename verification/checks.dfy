/**
 The engine shared by the four check modules: a check is a section with its
 commands and its rule; a module's `run()` executes its checks in a fixed
 order, turns each verdict into a row and upserts the row into the module's
 table, one transaction per check.
 */
module Checks {
  import opened Text
  import opened Evidence
  import opened Rules
  import opened Rows
  import opened Store

  /** One `ensure_*` function as data. */
  datatype Check = Check(
    section: string,
    sectionName: string,
    scored: bool,
    commands: seq<Command>,
    rule: Rule)

  /** The rule reads only the check's own commands, and no two commands share a name. */
  predicate WellFormed(c: Check) {
    RefersWithin(c.rule, |c.commands|) && DistinctLabels(c.commands)
  }

  /** The section identifiers of some checks, in order. */
  function Sections(cs: seq<Check>): (ss: seq<string>)
    ensures |ss| == |cs|
    ensures forall i :: 0 <= i < |cs| ==> ss[i] == cs[i].section
  {
    if cs == [] then [] else [cs[0].section] + Sections(cs[1..])
  }

  /** The sections of two runs of checks, one after the other. */
  lemma {:induction false} SectionsAppend(a: seq<Check>, b: seq<Check>)
    ensures Sections(a + b) == Sections(a) + Sections(b)
  {
    if a != [] {
      assert (a + b)[1..] == a[1..] + b;
      SectionsAppend(a[1..], b);
    }
  }

  /** What one execution of a check meets in the world: the host context read
      when its row is written (host name, OS footprint and date are read afresh
      for every check), the output of each of its commands, and whether its
      database transaction commits. */
  datatype Probe = Probe(ctx: HostContext, outputs: seq<Output>, committed: bool)

  /** A well-formed check's verdict ignores any output past its own commands. */
  lemma VerdictReadsOwnOutputs(c: Check, outs: seq<Output>, more: seq<Output>)
    requires WellFormed(c) && |outs| == |c.commands|
    ensures Eval(c.rule, outs + more) == Eval(c.rule, outs)
  {
    EvalPrefix(c.rule, outs, more);
  }

  /** The evidence a check gathers from the outputs of its commands. */
  function EvidenceOf(c: Check, outs: seq<Output>): (ev: seq<Entry>)
    requires WellFormed(c) && |outs| == |c.commands|
    ensures |ev| == |c.commands|
    ensures forall k :: 0 <= k < |ev| ==>
      ev[k].name == c.commands[k].name && ev[k].command == c.commands[k].line
      && ev[k].stdout == Strip(outs[k].stdout) && ev[k].stderr == Strip(outs[k].stderr)
  {
    CollectDistinct(c.commands, outs);
    Collect(c.commands, outs)
  }

  /** The row a check writes: its section, name and scored flag, the rule's
      verdict on the outputs, and the host context. */
  function ResultRow(c: Check, ctx: HostContext, outs: seq<Output>): (r: Row)
    ensures WellLabelled(r)
    ensures r.section == c.section && r.sectionName == c.sectionName
    ensures ContextOf(r) == ctx
    ensures (r.scored == Scored) == c.scored
    ensures (r.checklist == Compliant) == Eval(c.rule, outs)
  {
    BuildRow(ctx, c.section, c.sectionName, c.scored, Eval(c.rule, outs))
  }

  /** The database after a module's run and the rows it produced. */
  datatype RunResult = RunResult(db: Database, rows: seq<Row>)

  /** A module's `run()`: each check in order computes its row and writes it
      to `table`; a failed transaction loses that row but the run goes on. */
  function RunAll(cs: seq<Check>, table: string, probes: seq<Probe>, db: Database): (res: RunResult)
    requires Valid(db) && |probes| == |cs|
    ensures Valid(res.db)
    ensures |res.rows| == |cs|
    ensures forall i :: 0 <= i < |cs| ==> res.rows[i] == ResultRow(cs[i], probes[i].ctx, probes[i].outputs)
    ensures forall t :: t != table ==> (t in res.db <==> t in db) && (t in db ==> res.db[t] == db[t])
  {
    if cs == [] then RunResult(db, [])
    else
      var n := |cs| - 1;
      var before := RunAll(cs[..n], table, probes[..n], db);
      var row := ResultRow(cs[n], probes[n].ctx, probes[n].outputs);
      RunResult(WriteRow(before.db, table, row, probes[n].committed), before.rows + [row])
  }

  /** True iff no two checks share a section. */
  predicate DistinctSections(cs: seq<Check>) {
    forall i, j :: 0 <= i < j < |cs| ==> cs[i].section != cs[j].section
  }

  /** Checks whose section list has no repetition have distinct sections. */
  lemma DistinctSectionsOf(cs: seq<Check>)
    requires Distinct(Sections(cs))
    ensures DistinctSections(cs)
  {
    var ss := Sections(cs);
    forall i, j | 0 <= i < j < |cs|
      ensures cs[i].section != cs[j].section
    {
      assert ss[i] != ss[j];
    }
  }

  /** The rows whose transactions committed, in run order. */
  function Committed(rows: seq<Row>, probes: seq<Probe>): (kept: seq<Row>)
    requires |rows| == |probes|
    ensures |kept| <= |rows|
    ensures forall x :: x in kept ==> x in rows
    ensures (forall i :: 0 <= i < |probes| ==> probes[i].committed) ==> kept == rows
    ensures (forall i :: 0 <= i < |probes| ==> !probes[i].committed) ==> kept == []
  {
    if rows == [] then []
    else
      var n := |rows| - 1;
      var earlier := Committed(rows[..n], probes[..n]);
      assert rows[..n] + [rows[n]] == rows;
      if probes[n].committed then earlier + [rows[n]] else earlier
  }

  /** Each transaction commits or fails on its own: after a run, the table's
      contents are its contents before, updated in order with the rows whose
      transactions committed. A row committed early survives a later failure,
      and a failure does not stop later checks from writing. */
  lemma {:induction false} RunAllCommittedContents(cs: seq<Check>, table: string, probes: seq<Probe>, db: Database)
    requires Valid(db) && |probes| == |cs|
    ensures var res := RunAll(cs, table, probes, db);
      Contents(TableRows(res.db, table)) == UpdateAll(Contents(TableRows(db, table)), Committed(res.rows, probes))
  {
    var res := RunAll(cs, table, probes, db);
    if cs != [] {
      var n := |cs| - 1;
      var before := RunAll(cs[..n], table, probes[..n], db);
      RunAllCommittedContents(cs[..n], table, probes[..n], db);
      assert res.rows[..n] == before.rows;
      var earlier := Committed(before.rows, probes[..n]);
      var m := UpdateAll(Contents(TableRows(db, table)), earlier);
      assert Contents(TableRows(before.db, table)) == m;
      if probes[n].committed {
        var kept := earlier + [res.rows[n]];
        assert Committed(res.rows, probes) == kept;
        assert kept[..|kept| - 1] == earlier;
        assert UpdateAll(Contents(TableRows(db, table)), kept) == m[KeyOf(res.rows[n]) := res.rows[n]];
      } else {
        assert Committed(res.rows, probes) == earlier;
        assert res.db == before.db;
      }
    }
  }

  /** When every transaction commits, the table's contents after the run are
      its contents before, updated with the run's rows in order. */
  lemma {:induction false} RunAllContents(cs: seq<Check>, table: string, probes: seq<Probe>, db: Database)
    requires Valid(db) && |probes| == |cs|
    requires forall i :: 0 <= i < |probes| ==> probes[i].committed
    ensures var res := RunAll(cs, table, probes, db);
      Contents(TableRows(res.db, table)) == UpdateAll(Contents(TableRows(db, table)), res.rows)
  {
    var res := RunAll(cs, table, probes, db);
    if cs != [] {
      var n := |cs| - 1;
      var before := RunAll(cs[..n], table, probes[..n], db);
      RunAllContents(cs[..n], table, probes[..n], db);
      var row := ResultRow(cs[n], probes[n].ctx, probes[n].outputs);
      var created := CreateTable(before.db, table);
      assert TableRows(before.db, table) == created[table];
      UpsertIsMapUpdate(created[table], row);
      assert res.rows[..n] == before.rows;
    }
  }

  /** After a fully committed run over checks with distinct sections, every
      row the run produced is in the table, and it is the only row with its key. */
  lemma RunAllPersists(cs: seq<Check>, table: string, probes: seq<Probe>, db: Database)
    requires Valid(db) && |probes| == |cs| && DistinctSections(cs)
    requires forall i :: 0 <= i < |probes| ==> probes[i].committed
    ensures var res := RunAll(cs, table, probes, db);
      forall i :: 0 <= i < |cs| ==>
        && res.rows[i] in TableRows(res.db, table)
        && (forall x :: x in TableRows(res.db, table) && KeyOf(x) == KeyOf(res.rows[i]) ==> x == res.rows[i])
  {
    var res := RunAll(cs, table, probes, db);
    RunAllContents(cs, table, probes, db);
    forall i | 0 <= i < |cs|
      ensures res.rows[i] in TableRows(res.db, table)
      ensures forall x :: x in TableRows(res.db, table) && KeyOf(x) == KeyOf(res.rows[i]) ==> x == res.rows[i]
    {
      forall j | i < j < |cs|
        ensures KeyOf(res.rows[j]) != KeyOf(res.rows[i])
      {
      }
      LastWriterPersists(Contents(TableRows(db, table)), TableRows(res.db, table), res.rows, i);
    }
  }

  /** A table with unique keys whose contents are `m` updated with `rows`
      holds each row that no later row overrides, as the only row with its key. */
  lemma LastWriterPersists(m: map<Key, Row>, table: seq<Row>, rows: seq<Row>, i: nat)
    requires UniqueKeys(table) && Contents(table) == UpdateAll(m, rows)
    requires i < |rows| && forall j :: i < j < |rows| ==> KeyOf(rows[j]) != KeyOf(rows[i])
    ensures rows[i] in table
    ensures forall x :: x in table && KeyOf(x) == KeyOf(rows[i]) ==> x == rows[i]
  {
    UpdateAllLast(m, rows, i);
    forall y | y in table && KeyOf(y) == KeyOf(rows[i])
      ensures y == rows[i]
    {
      var j :| 0 <= j < |table| && table[j] == y;
      ContentsAt(table, j);
    }
  }

  /** A row of a batch that no later row shares a key with is what the
      updated map holds under its key. */
  lemma {:induction false} UpdateAllLast(m: map<Key, Row>, data: seq<Row>, i: nat)
    requires i < |data|
    requires forall j :: i < j < |data| ==> KeyOf(data[j]) != KeyOf(data[i])
    ensures KeyOf(data[i]) in UpdateAll(m, data) && UpdateAll(m, data)[KeyOf(data[i])] == data[i]
  {
    var n := |data| - 1;
    if i < n {
      UpdateAllLast(m, data[..n], i);
    }
  }

  /** When no transaction commits, the run leaves the database as it found it. */
  lemma {:induction false} RunAllNothingCommitted(cs: seq<Check>, table: string, probes: seq<Probe>, db: Database)
    requires Valid(db) && |probes| == |cs|
    requires forall i :: 0 <= i < |probes| ==> !probes[i].committed
    ensures RunAll(cs, table, probes, db).db == db
  {
    if cs != [] {
      var n := |cs| - 1;
      RunAllNothingCommitted(cs[..n], table, probes[..n], db);
    }
  }
}
