/** The start-up statements that rebuild the notify log under its wider key.  Each statement
    commits by itself, so a crash can fall between any two of them. */
module Migration {
  import opened Basics
  import opened Store

  /** A table's rows and, per index, the SQL text the catalogue keeps for it.  The index behind a
      table constraint has none. */
  datatype Table = Table(rows: set<LogRow>, indexes: seq<Option<string>>)

  /** The notify log and the table it is rebuilt in; None while a table does not exist. */
  datatype Tables = Tables(log: Option<Table>, rebuilt: Option<Table>)

  const STATEMENTS: nat := 5

  const COLUMN := "end_time"

  /** A table as the create statements make it: its only index is the one behind its key. */
  function Created(rows: set<LogRow>): Table { Table(rows, [None]) }

  /** Create the table if it is missing. */
  function OrCreated(table: Option<Table>): Table {
    if table.Some? then table.value else Created({})
  }

  function Rows(table: Option<Table>): set<LogRow> { OrCreated(table).rows }

  // ----- The look-up for an earlier migration -----

  /** The texts the catalogue keeps for a table's indexes. */
  function Texts(indexes: seq<Option<string>>): seq<string> {
    if indexes == [] then []
    else
      var last := indexes[|indexes| - 1];
      Texts(indexes[..|indexes| - 1]) + if last.Some? then [last.value] else []
  }

  /** The texts joined by semicolons. */
  function Joined(texts: seq<string>): string {
    if texts == [] then ""
    else if |texts| == 1 then texts[0]
    else Joined(texts[..|texts| - 1]) + ";" + texts[|texts| - 1]
  }

  predicate FoundAt(s: string, part: string, i: int) {
    0 <= i <= |s| - |part| && s[i..i + |part|] == part
  }

  predicate Contains(s: string, part: string) {
    exists i :: 0 <= i <= |s| && FoundAt(s, part, i)
  }

  predicate AlreadyMigrated(t: Tables) {
    t.log.Some? && Contains(Joined(Texts(t.log.value.indexes)), COLUMN)
  }

  /** The column's name holds no semicolon, so it cannot reach across one. */
  lemma FoundOnOneSide(a: string, b: string, i: int)
    requires FoundAt(a + ";" + b, COLUMN, i)
    ensures FoundAt(a, COLUMN, i) || FoundAt(b, COLUMN, i - |a| - 1)
  {
    var s, n := a + ";" + b, |COLUMN|;
    assert forall k :: i <= k < i + n ==> s[k] == s[i..i + n][k - i] != ';';
    assert s[|a|] == ';';
  }

  lemma ContainsInJoin(a: string, b: string)
    ensures Contains(a + ";" + b, COLUMN) <==> Contains(a, COLUMN) || Contains(b, COLUMN)
  {
    var s := a + ";" + b;
    if i :| 0 <= i <= |s| && FoundAt(s, COLUMN, i) {
      FoundOnOneSide(a, b, i);
    }
    if i :| 0 <= i <= |a| && FoundAt(a, COLUMN, i) {
      assert FoundAt(s, COLUMN, i);
    }
    if i :| 0 <= i <= |b| && FoundAt(b, COLUMN, i) {
      assert s[|a| + 1..] == b;
      assert FoundAt(s, COLUMN, |a| + 1 + i);
    }
  }

  lemma {:induction false} JoinedContains(texts: seq<string>)
    ensures Contains(Joined(texts), COLUMN) <==> exists sql :: sql in texts && Contains(sql, COLUMN)
  {
    var n := |texts| - 1;
    if n == 0 {
      assert texts[0] in texts;
    } else if n > 0 {
      JoinedContains(texts[..n]);
      ContainsInJoin(Joined(texts[..n]), texts[n]);
      assert texts == texts[..n] + [texts[n]];
    }
  }

  lemma {:induction false} TextsAre(indexes: seq<Option<string>>, sql: string)
    ensures sql in Texts(indexes) <==> Some(sql) in indexes
  {
    if indexes != [] {
      var n := |indexes| - 1;
      TextsAre(indexes[..n], sql);
      assert indexes == indexes[..n] + [indexes[n]];
    }
  }

  /** The text names the column. */
  ghost predicate Names(sql: string) {
    exists a: string, b: string :: sql == a + "end_time" + b
  }

  lemma NamesIfContains(sql: string)
    ensures Names(sql) <==> Contains(sql, COLUMN)
  {
    if i :| 0 <= i <= |sql| && FoundAt(sql, COLUMN, i) {
      assert sql == sql[..i] + "end_time" + sql[i + 8..];
    }
    if a: string, b: string :| sql == a + "end_time" + b {
      assert FoundAt(sql, COLUMN, |a|);
    }
  }

  /** The look-up finds an earlier migration exactly when the catalogue keeps a text that names
      the column for some index of the table. */
  lemma LookUpIsExact(t: Tables)
    ensures AlreadyMigrated(t) <==> t.log.Some? && exists sql :: Some(sql) in t.log.value.indexes && Names(sql)
  {
    if t.log.Some? {
      JoinedContains(Texts(t.log.value.indexes));
      forall sql
        ensures sql in Texts(t.log.value.indexes) <==> Some(sql) in t.log.value.indexes
        ensures Names(sql) <==> Contains(sql, COLUMN)
      {
        TextsAre(t.log.value.indexes, sql);
        NamesIfContains(sql);
      }
    }
  }

  // ----- The statements -----

  function Statement(t: Tables, k: nat): Tables
    requires k < STATEMENTS
  {
    match k
    case 0 => t.(log := Some(OrCreated(t.log)))                                       // create notify_log if missing
    case 1 => t.(rebuilt := Some(OrCreated(t.rebuilt)))                               // create the new table if missing
    case 2 =>                                                                         // copy, ignoring duplicates
      t.(rebuilt := Some(OrCreated(t.rebuilt).(rows := Rows(t.rebuilt) + Rows(t.log))))
    case 3 => t.(log := None)                                                         // drop notify_log
    case _ => Tables(t.rebuilt, None)                                                 // rename the new table
  }

  /** A start that gets as far as the first n statements.  When the look-up finds an earlier
      migration, none of them is carried out but the first. */
  function Start(t: Tables, n: nat): Tables
    requires n <= STATEMENTS
  {
    if n == 0 then t
    else if n > 1 && AlreadyMigrated(Statement(t, 0)) then Statement(t, 0)
    else Statement(Start(t, n - 1), n - 1)
  }

  /** Starts that crash after so many statements each, then one that completes. */
  function Starts(t: Tables, crashes: seq<nat>): Tables
    requires forall i :: 0 <= i < |crashes| ==> crashes[i] <= STATEMENTS
    decreases |crashes|
  {
    if crashes == [] then Start(t, STATEMENTS) else Starts(Start(t, crashes[0]), crashes[1..])
  }

  /** A log that has such an index is left alone, whatever the starts before have come to. */
  lemma {:induction false} EarlierMigrationIsKept(t: Tables, crashes: seq<nat>)
    requires forall i :: 0 <= i < |crashes| ==> crashes[i] <= STATEMENTS
    requires t.log.Some? && exists sql :: Some(sql) in t.log.value.indexes && Names(sql)
    ensures Starts(t, crashes) == t
    decreases |crashes|
  {
    LookUpIsExact(t);
    StartFinds(t, STATEMENTS);
    if crashes != [] {
      StartFinds(t, crashes[0]);
      EarlierMigrationIsKept(t, crashes[1..]);
    }
  }

  lemma StartFinds(t: Tables, n: nat)
    requires n <= STATEMENTS && AlreadyMigrated(t)
    ensures Start(t, n) == t
  {
    assert Statement(t, 0) == t;
    assert Start(t, 0) == t && (n == 1 ==> Start(t, 1) == Statement(Start(t, 0), 0));
  }

  function AllRows(t: Tables): set<LogRow> { Rows(t.log) + Rows(t.rebuilt) }

  /** Every table there is was made by these statements. */
  predicate MadeHere(t: Tables) {
    && (t.log.Some? ==> t.log.value == Created(Rows(t.log)))
    && (t.rebuilt.Some? ==> t.rebuilt.value == Created(Rows(t.rebuilt)))
  }

  /** The look-up never finds anything in a table made by these statements, not even in one
      that has been rebuilt. */
  lemma LookUpNeverFires(t: Tables)
    requires MadeHere(t)
    ensures !AlreadyMigrated(t) && !AlreadyMigrated(Statement(t, 0))
  {
    LookUpIsExact(t);
    LookUpIsExact(Statement(t, 0));
  }

  lemma StartKeepsRows(t: Tables, n: nat)
    requires n <= STATEMENTS && MadeHere(t)
    ensures MadeHere(Start(t, n)) && AllRows(Start(t, n)) == AllRows(t)
    ensures n == STATEMENTS ==> Start(t, n) == Tables(Some(Created(AllRows(t))), None)
  {
    LookUpNeverFires(t);
    var log, rebuilt := Rows(t.log), Rows(t.rebuilt);
    assert Start(t, 0) == t;
    assert n >= 1 ==> Start(t, 1) == t.(log := Some(Created(log)));
    assert n >= 2 ==> Start(t, 2) == Tables(Some(Created(log)), Some(Created(rebuilt)));
    assert n >= 3 ==> Start(t, 3) == Tables(Some(Created(log)), Some(Created(rebuilt + log)));
    assert n >= 4 ==> Start(t, 4) == Tables(None, Some(Created(rebuilt + log)));
    assert n >= 5 ==> Start(t, 5) == Tables(Some(Created(rebuilt + log)), None);
    assert rebuilt + log == AllRows(t);
  }

  /** No reminder is forgotten, and the table is rebuilt at every start: however many starts
      crash, and wherever, the start that completes has every row in the log, and nothing else,
      and the next start finds no trace of an earlier migration. */
  lemma {:induction false} MigrationKeepsRows(t: Tables, crashes: seq<nat>)
    requires forall i :: 0 <= i < |crashes| ==> crashes[i] <= STATEMENTS
    requires MadeHere(t)
    ensures Starts(t, crashes) == Tables(Some(Created(AllRows(t))), None)
    ensures !AlreadyMigrated(Starts(t, crashes))
    decreases |crashes|
  {
    if crashes == [] {
      StartKeepsRows(t, STATEMENTS);
      LookUpNeverFires(Start(t, STATEMENTS));
    } else {
      StartKeepsRows(t, crashes[0]);
      MigrationKeepsRows(Start(t, crashes[0]), crashes[1..]);
    }
  }
}
