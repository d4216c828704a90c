/**
 * The schema serialiser of the ChatGPT baseline: the schema file is flattened
 * into field, primary-key and foreign-key rows, and the rows of one database
 * are printed as `Table t, columns = [...]` lines followed by a
 * `Foreign_keys = [...]` list. Data frames are sequences of rows; grouping
 * by table name visits the names in sorted order and keeps the rows of each
 * group in their original order.
 */
module PromptGenerator {
  import opened Text
  import Ordering
  import Dicts

  /**
   * One entry of the schema file: the original table names, the columns as
   * (table index, name) pairs, where index -1 marks the `*` column, the
   * column types, and the primary and foreign keys as column indices.
   */
  datatype DatabaseEntry = DatabaseEntry(
    dbId: string,
    tables: seq<string>,
    columns: seq<(int, string)>,
    columnTypes: seq<string>,
    primaryKeys: seq<int>,
    foreignKeys: seq<(int, int)>)

  /** A row of the `db_schema` frame. */
  datatype FieldRow = FieldRow(db: string, table: string, field: string, fieldType: string)

  /** A row of the `primary_key` frame. */
  datatype PrimaryKeyRow = PrimaryKeyRow(db: string, table: string, column: string)

  /** A row of the `foreign_key` frame. */
  datatype ForeignKeyRow = ForeignKeyRow(db: string, firstTable: string, secondTable: string,
    firstColumn: string, secondColumn: string)

  /** Python's `s[i]`, where a negative `i` counts from the end. */
  predicate InRange<T>(s: seq<T>, i: int) {
    -|s| <= i < |s|
  }

  function At<T>(s: seq<T>, i: int): T
    requires InRange(s, i)
  {
    if i >= 0 then s[i] else s[|s| + i]
  }

  /** `zip(col_names, col_types)` stops at the shorter list. */
  function ZipLength(e: DatabaseEntry): (n: nat)
    ensures n <= |e.columns| && n <= |e.columnTypes|
    ensures n == |e.columns| || n == |e.columnTypes|
  {
    if |e.columns| < |e.columnTypes| then |e.columns| else |e.columnTypes|
  }

  /** The key column `k` resolves to a column whose table resolves too. */
  predicate KeyColumnResolves(e: DatabaseEntry, k: int) {
    InRange(e.columns, k) && InRange(e.tables, At(e.columns, k).0)
  }

  /**
   * What `load_schema` indexes without an `IndexError`: every attached
   * column's table, and the column and table of every key.
   */
  predicate Resolvable(e: DatabaseEntry) {
    && (forall k | 0 <= k < ZipLength(e) :: e.columns[k].0 > -1 ==> e.columns[k].0 < |e.tables|)
    && (forall k | 0 <= k < |e.primaryKeys| :: KeyColumnResolves(e, e.primaryKeys[k]))
    && (forall k | 0 <= k < |e.foreignKeys| ::
         KeyColumnResolves(e, e.foreignKeys[k].0) && KeyColumnResolves(e, e.foreignKeys[k].1))
  }

  predicate AllResolvable(entries: seq<DatabaseEntry>) {
    forall i | 0 <= i < |entries| :: Resolvable(entries[i])
  }

  /** The field rows of the first `n` zipped columns of `e`: a column of table -1 gives none. */
  function FieldRowsOf(e: DatabaseEntry, n: nat): (r: seq<FieldRow>)
    requires Resolvable(e) && n <= ZipLength(e)
    ensures |r| <= n
    ensures forall k | 0 <= k < |r| :: r[k].db == e.dbId && r[k].table in e.tables
    decreases n
  {
    if n == 0 then []
    else
      var (index, name) := e.columns[n - 1];
      FieldRowsOf(e, n - 1) + (if index > -1 then [FieldRow(e.dbId, e.tables[index], name, e.columnTypes[n - 1])] else [])
  }

  /** The field row column `k` gives when it is attached to a table. */
  function AttachedRow(e: DatabaseEntry, k: nat): FieldRow
    requires k < ZipLength(e) && 0 <= e.columns[k].0 < |e.tables|
  {
    FieldRow(e.dbId, e.tables[e.columns[k].0], e.columns[k].1, e.columnTypes[k])
  }

  /** With every column attached to a table, there is exactly one field row per column, in column order. */
  lemma {:induction false} FieldRowsOfAttached(e: DatabaseEntry, n: nat)
    requires Resolvable(e) && n <= ZipLength(e)
    requires forall k | 0 <= k < n :: e.columns[k].0 > -1
    ensures |FieldRowsOf(e, n)| == n
    ensures forall k | 0 <= k < n :: FieldRowsOf(e, n)[k] == AttachedRow(e, k)
    decreases n
  {
    if n > 0 {
      FieldRowsOfAttached(e, n - 1);
    }
  }

  /** The columns among the first `n` that are attached to a table, in column order. */
  function AttachedColumns(e: DatabaseEntry, n: nat): seq<nat>
    requires n <= |e.columns|
    decreases n
  {
    if n == 0 then []
    else AttachedColumns(e, n - 1) + (if e.columns[n - 1].0 > -1 then [n - 1] else [])
  }

  /**
   * Exactly the attached columns below `n`, each once, in increasing order:
   * every listed column is attached and below `n`, the list is strictly
   * increasing, and every attached column below `n` is listed.
   */
  lemma AttachedColumnsSpec(e: DatabaseEntry, n: nat)
    requires n <= |e.columns|
    ensures var ks := AttachedColumns(e, n);
      && (forall j | 0 <= j < |ks| :: ks[j] < n && e.columns[ks[j]].0 > -1)
      && (forall j, j' | 0 <= j < j' < |ks| :: ks[j] < ks[j'])
      && (forall k | 0 <= k < n && e.columns[k].0 > -1 :: k in ks)
  {
    AttachedColumnsSound(e, n);
    AttachedColumnsIncreasing(e, n);
    AttachedColumnsComplete(e, n);
  }

  lemma {:induction false} AttachedColumnsSound(e: DatabaseEntry, n: nat)
    requires n <= |e.columns|
    ensures var ks := AttachedColumns(e, n);
      forall j | 0 <= j < |ks| :: ks[j] < n && e.columns[ks[j]].0 > -1
    decreases n
  {
    if n > 0 {
      AttachedColumnsSound(e, n - 1);
      var ks, ks' := AttachedColumns(e, n - 1), AttachedColumns(e, n);
      AttachedColumnsStep(e, n);
      forall j | 0 <= j < |ks'| ensures ks'[j] < n && e.columns[ks'[j]].0 > -1 {
        if j < |ks| { assert ks'[j] == ks[j]; }
      }
    }
  }

  lemma AttachedColumnsStep(e: DatabaseEntry, n: nat)
    requires 0 < n <= |e.columns|
    ensures AttachedColumns(e, n) == AttachedColumns(e, n - 1) + (if e.columns[n - 1].0 > -1 then [n - 1] else [])
  {
  }

  lemma {:induction false} AttachedColumnsIncreasing(e: DatabaseEntry, n: nat)
    requires n <= |e.columns|
    ensures var ks := AttachedColumns(e, n);
      forall j, j' | 0 <= j < j' < |ks| :: ks[j] < ks[j']
    decreases n
  {
    if n > 0 {
      AttachedColumnsIncreasing(e, n - 1);
      AttachedColumnsSound(e, n - 1);
      var ks, ks' := AttachedColumns(e, n - 1), AttachedColumns(e, n);
      AttachedColumnsStep(e, n);
      forall j, j' | 0 <= j < j' < |ks'| ensures ks'[j] < ks'[j'] {
        assert ks'[j] == ks[j];
        if j' < |ks| { assert ks'[j'] == ks[j']; }
      }
    }
  }

  lemma {:induction false} AttachedColumnsComplete(e: DatabaseEntry, n: nat)
    requires n <= |e.columns|
    ensures var ks := AttachedColumns(e, n);
      forall k | 0 <= k < n && e.columns[k].0 > -1 :: k in ks
    decreases n
  {
    if n > 0 {
      AttachedColumnsComplete(e, n - 1);
    }
  }

  /** Columns that are attached to a table of `e`. */
  predicate AttachedIn(e: DatabaseEntry, ks: seq<nat>) {
    forall j | 0 <= j < |ks| :: ks[j] < ZipLength(e) && 0 <= e.columns[ks[j]].0 < |e.tables|
  }

  /** The field rows of the columns `ks`, in that order. */
  function AttachedRows(e: DatabaseEntry, ks: seq<nat>): seq<FieldRow>
    requires AttachedIn(e, ks)
  {
    seq(|ks|, j requires 0 <= j < |ks| => AttachedRow(e, ks[j]))
  }

  /**
   * With attached and detached columns mixed, there is one field row per
   * attached column, in column order, and none for a detached one.
   */
  lemma {:induction false} FieldRowsOfMixed(e: DatabaseEntry, n: nat)
    requires Resolvable(e) && n <= ZipLength(e)
    ensures AttachedIn(e, AttachedColumns(e, n))
    ensures FieldRowsOf(e, n) == AttachedRows(e, AttachedColumns(e, n))
    decreases n
  {
    AttachedColumnsAttached(e, n);
    if n == 0 {
      assert AttachedRows(e, []) == [];
    } else {
      FieldRowsOfMixed(e, n - 1);
      FieldRowsOfStep(e, n);
      var ks := AttachedColumns(e, n - 1);
      if e.columns[n - 1].0 > -1 {
        AttachedRowsSnoc(e, ks, n - 1);
        calc {
          FieldRowsOf(e, n);
          FieldRowsOf(e, n - 1) + [AttachedRow(e, n - 1)];
          AttachedRows(e, ks) + [AttachedRow(e, n - 1)];
          AttachedRows(e, ks + [n - 1]);
        }
      }
    }
  }

  lemma FieldRowsOfStep(e: DatabaseEntry, n: nat)
    requires Resolvable(e) && 0 < n <= ZipLength(e)
    ensures e.columns[n - 1].0 > -1 ==> FieldRowsOf(e, n) == FieldRowsOf(e, n - 1) + [AttachedRow(e, n - 1)]
    ensures e.columns[n - 1].0 > -1 ==> AttachedColumns(e, n) == AttachedColumns(e, n - 1) + [n - 1]
    ensures e.columns[n - 1].0 <= -1 ==> FieldRowsOf(e, n) == FieldRowsOf(e, n - 1)
    ensures e.columns[n - 1].0 <= -1 ==> AttachedColumns(e, n) == AttachedColumns(e, n - 1)
  {
  }

  lemma AttachedColumnsAttached(e: DatabaseEntry, n: nat)
    requires Resolvable(e) && n <= ZipLength(e)
    ensures AttachedIn(e, AttachedColumns(e, n))
  {
    AttachedColumnsSound(e, n);
  }

  lemma AttachedRowsSnoc(e: DatabaseEntry, ks: seq<nat>, k: nat)
    requires AttachedIn(e, ks) && k < ZipLength(e) && 0 <= e.columns[k].0 < |e.tables|
    ensures AttachedIn(e, ks + [k])
    ensures AttachedRows(e, ks + [k]) == AttachedRows(e, ks) + [AttachedRow(e, k)]
  {
  }

  /** Columns of table -1 (or any index below it) give no field row at all. */
  lemma {:induction false} FieldRowsOfDetached(e: DatabaseEntry, n: nat)
    requires Resolvable(e) && n <= ZipLength(e)
    requires forall k | 0 <= k < n :: e.columns[k].0 <= -1
    ensures FieldRowsOf(e, n) == []
    decreases n
  {
    if n > 0 {
      FieldRowsOfDetached(e, n - 1);
    }
  }

  function PrimaryKeyRowOf(e: DatabaseEntry, key: int): PrimaryKeyRow
    requires KeyColumnResolves(e, key)
  {
    var column := At(e.columns, key);
    PrimaryKeyRow(e.dbId, At(e.tables, column.0), column.1)
  }

  function ForeignKeyRowOf(e: DatabaseEntry, key: (int, int)): ForeignKeyRow
    requires KeyColumnResolves(e, key.0) && KeyColumnResolves(e, key.1)
  {
    var first := At(e.columns, key.0);
    var second := At(e.columns, key.1);
    ForeignKeyRow(e.dbId, At(e.tables, first.0), At(e.tables, second.0), first.1, second.1)
  }

  /** One row per primary key of `e`, in key order. */
  function PrimaryKeyRowsOf(e: DatabaseEntry): (r: seq<PrimaryKeyRow>)
    requires Resolvable(e)
    ensures |r| == |e.primaryKeys|
    ensures forall k | 0 <= k < |r| :: r[k] == PrimaryKeyRowOf(e, e.primaryKeys[k])
  {
    seq(|e.primaryKeys|, k requires 0 <= k < |e.primaryKeys| => PrimaryKeyRowOf(e, e.primaryKeys[k]))
  }

  /** One row per foreign-key pair of `e`, in pair order. */
  function ForeignKeyRowsOf(e: DatabaseEntry): (r: seq<ForeignKeyRow>)
    requires Resolvable(e)
    ensures |r| == |e.foreignKeys|
    ensures forall k | 0 <= k < |r| :: r[k] == ForeignKeyRowOf(e, e.foreignKeys[k])
  {
    seq(|e.foreignKeys|, k requires 0 <= k < |e.foreignKeys| => ForeignKeyRowOf(e, e.foreignKeys[k]))
  }

  /** The rows all entries give, entry after entry. */
  function FieldRows(entries: seq<DatabaseEntry>): seq<FieldRow>
    requires AllResolvable(entries)
    decreases |entries|
  {
    if |entries| == 0 then []
    else
      var last := entries[|entries| - 1];
      FieldRows(entries[..|entries| - 1]) + FieldRowsOf(last, ZipLength(last))
  }

  function PrimaryKeyRows(entries: seq<DatabaseEntry>): seq<PrimaryKeyRow>
    requires AllResolvable(entries)
    decreases |entries|
  {
    if |entries| == 0 then []
    else
      var last := entries[|entries| - 1];
      PrimaryKeyRows(entries[..|entries| - 1]) + PrimaryKeyRowsOf(last)
  }

  function ForeignKeyRows(entries: seq<DatabaseEntry>): seq<ForeignKeyRow>
    requires AllResolvable(entries)
    decreases |entries|
  {
    if |entries| == 0 then []
    else
      var last := entries[|entries| - 1];
      ForeignKeyRows(entries[..|entries| - 1]) + ForeignKeyRowsOf(last)
  }

  /** The number of keys of one kind over all entries. */
  function PrimaryKeyCount(entries: seq<DatabaseEntry>): nat
    decreases |entries|
  {
    if |entries| == 0 then 0 else PrimaryKeyCount(entries[..|entries| - 1]) + |entries[|entries| - 1].primaryKeys|
  }

  function ForeignKeyCount(entries: seq<DatabaseEntry>): nat
    decreases |entries|
  {
    if |entries| == 0 then 0 else ForeignKeyCount(entries[..|entries| - 1]) + |entries[|entries| - 1].foreignKeys|
  }

  /** One primary-key row per primary key and one foreign-key row per foreign key, over all entries. */
  lemma {:induction false} KeyRowsCount(entries: seq<DatabaseEntry>)
    requires AllResolvable(entries)
    ensures |PrimaryKeyRows(entries)| == PrimaryKeyCount(entries)
    ensures |ForeignKeyRows(entries)| == ForeignKeyCount(entries)
    decreases |entries|
  {
    if |entries| > 0 {
      var init := entries[..|entries| - 1];
      assert AllResolvable(init);
      KeyRowsCount(init);
    }
  }

  /** Every field row names an entry's database and one of that entry's tables. */
  lemma {:induction false} FieldRowsComeFromEntries(entries: seq<DatabaseEntry>, k: nat)
    requires AllResolvable(entries) && k < |FieldRows(entries)|
    ensures exists i :: (0 <= i < |entries| && FieldRows(entries)[k].db == entries[i].dbId &&
      FieldRows(entries)[k].table in entries[i].tables)
    decreases |entries|
  {
    var init := entries[..|entries| - 1];
    var last := entries[|entries| - 1];
    assert AllResolvable(init);
    if k < |FieldRows(init)| {
      FieldRowsComeFromEntries(init, k);
      var i :| 0 <= i < |init| && FieldRows(init)[k].db == init[i].dbId && FieldRows(init)[k].table in init[i].tables;
      assert entries[i] == init[i];
    } else {
      var j := k - |FieldRows(init)|;
      assert FieldRows(entries)[k] == FieldRowsOf(last, ZipLength(last))[j];
    }
  }

  lemma RowsSnoc(entries: seq<DatabaseEntry>, i: nat)
    requires i < |entries| && AllResolvable(entries)
    ensures AllResolvable(entries[..i]) && AllResolvable(entries[..i + 1])
    ensures FieldRows(entries[..i + 1]) == FieldRows(entries[..i]) + FieldRowsOf(entries[i], ZipLength(entries[i]))
    ensures PrimaryKeyRows(entries[..i + 1]) == PrimaryKeyRows(entries[..i]) + PrimaryKeyRowsOf(entries[i])
    ensures ForeignKeyRows(entries[..i + 1]) == ForeignKeyRows(entries[..i]) + ForeignKeyRowsOf(entries[i])
  {
    assert entries[..i + 1][..i] == entries[..i];
  }

  /** The loop over `zip(col_names, col_types)` for one entry. */
  method EntryFieldRows(e: DatabaseEntry) returns (rows: seq<FieldRow>)
    requires Resolvable(e)
    ensures rows == FieldRowsOf(e, ZipLength(e))
  {
    rows := [];
    var k := 0;
    while k < ZipLength(e)
      invariant 0 <= k <= ZipLength(e)
      invariant rows == FieldRowsOf(e, k)
    {
      var (index, name) := e.columns[k];
      if index > -1 {
        rows := rows + [FieldRow(e.dbId, e.tables[index], name, e.columnTypes[k])];
      }
      k := k + 1;
    }
  }

  /** The loop over `primary_keys` for one entry. */
  method EntryPrimaryKeyRows(e: DatabaseEntry) returns (rows: seq<PrimaryKeyRow>)
    requires Resolvable(e)
    ensures rows == PrimaryKeyRowsOf(e)
  {
    rows := [];
    var k := 0;
    while k < |e.primaryKeys|
      invariant 0 <= k <= |e.primaryKeys|
      invariant rows == PrimaryKeyRowsOf(e)[..k]
    {
      var column := At(e.columns, e.primaryKeys[k]);
      rows := rows + [PrimaryKeyRow(e.dbId, At(e.tables, column.0), column.1)];
      assert PrimaryKeyRowsOf(e)[..k + 1] == PrimaryKeyRowsOf(e)[..k] + [PrimaryKeyRowsOf(e)[k]];
      k := k + 1;
    }
    assert PrimaryKeyRowsOf(e)[..k] == PrimaryKeyRowsOf(e);
  }

  /** The loop over `foreign_keys` for one entry. */
  method EntryForeignKeyRows(e: DatabaseEntry) returns (rows: seq<ForeignKeyRow>)
    requires Resolvable(e)
    ensures rows == ForeignKeyRowsOf(e)
  {
    rows := [];
    var k := 0;
    while k < |e.foreignKeys|
      invariant 0 <= k <= |e.foreignKeys|
      invariant rows == ForeignKeyRowsOf(e)[..k]
    {
      var (first, second) := e.foreignKeys[k];
      var firstColumn := At(e.columns, first);
      var secondColumn := At(e.columns, second);
      rows := rows + [ForeignKeyRow(e.dbId, At(e.tables, firstColumn.0), At(e.tables, secondColumn.0),
        firstColumn.1, secondColumn.1)];
      assert ForeignKeyRowsOf(e)[..k + 1] == ForeignKeyRowsOf(e)[..k] + [ForeignKeyRowsOf(e)[k]];
      k := k + 1;
    }
    assert ForeignKeyRowsOf(e)[..k] == ForeignKeyRowsOf(e);
  }

  /**
   * The flattening part of `load_schema`: for every entry, one field row per
   * zipped column attached to a table, then one row per primary key, then
   * one row per foreign key, with tables and columns resolved by index.
   */
  method LoadSchema(entries: seq<DatabaseEntry>)
    returns (schema: seq<FieldRow>, pKeys: seq<PrimaryKeyRow>, fKeys: seq<ForeignKeyRow>)
    requires AllResolvable(entries)
    ensures schema == FieldRows(entries)
    ensures pKeys == PrimaryKeyRows(entries)
    ensures fKeys == ForeignKeyRows(entries)
  {
    schema, pKeys, fKeys := [], [], [];
    var i := 0;
    while i < |entries|
      invariant 0 <= i <= |entries| && AllResolvable(entries[..i])
      invariant schema == FieldRows(entries[..i])
      invariant pKeys == PrimaryKeyRows(entries[..i])
      invariant fKeys == ForeignKeyRows(entries[..i])
    {
      RowsSnoc(entries, i);
      var fields := EntryFieldRows(entries[i]);
      var primary := EntryPrimaryKeyRows(entries[i]);
      var foreign := EntryForeignKeyRows(entries[i]);
      schema, pKeys, fKeys := schema + fields, pKeys + primary, fKeys + foreign;
      i := i + 1;
    }
    assert entries[..i] == entries;
  }

  /**
   * `frame[keep(frame)]`: the rows that pass `keep`, in their original
   * order. A row is kept exactly when it is in the frame and passes.
   */
  function Where<T(==,!new)>(rows: seq<T>, keep: T -> bool): (r: seq<T>)
    ensures |r| <= |rows|
    ensures forall x :: x in r <==> x in rows && keep(x)
    decreases |rows|
  {
    if |rows| == 0 then []
    else
      var last := rows[|rows| - 1];
      assert rows == rows[..|rows| - 1] + [last];
      Where(rows[..|rows| - 1], keep) + (if keep(last) then [last] else [])
  }

  /**
   * Selection keeps the frame's order: selecting from two frames one after
   * the other gives the two selections one after the other.
   */
  lemma {:induction false} WhereConcat<T(!new)>(a: seq<T>, b: seq<T>, keep: T -> bool)
    ensures Where(a + b, keep) == Where(a, keep) + Where(b, keep)
    decreases |b|
  {
    if |b| == 0 {
      assert a + b == a;
    } else {
      var last := b[|b| - 1];
      var b' := b[..|b| - 1];
      var tail := if keep(last) then [last] else [];
      var ab := a + b;
      var init := ab[..|ab| - 1];
      assert ab[|ab| - 1] == last;
      assert Where(ab, keep) == Where(init, keep) + tail;
      assert init == a + b';
      assert Where(b, keep) == Where(b', keep) + tail;
      WhereConcat(a, b', keep);
      Assoc3(Where(a, keep), Where(b', keep), tail);
    }
  }

  /** Each passing row is kept as often as it occurs, and no other row is kept. */
  lemma {:induction false} WhereCounts<T(!new)>(rows: seq<T>, keep: T -> bool)
    ensures forall x :: multiset(Where(rows, keep))[x] == if keep(x) then multiset(rows)[x] else 0
    decreases |rows|
  {
    if |rows| > 0 {
      var last := rows[|rows| - 1];
      var init := rows[..|rows| - 1];
      assert rows == init + [last];
      WhereCounts(init, keep);
      assert Where(rows, keep) == Where(init, keep) + (if keep(last) then [last] else []);
    }
  }

  lemma Assoc3<T>(x: seq<T>, y: seq<T>, z: seq<T>)
    ensures (x + y) + z == x + (y + z)
  {
  }

  /** A one-row frame keeps its row exactly when it passes. */
  lemma WhereOne<T(!new)>(x: T, keep: T -> bool)
    ensures Where([x], keep) == if keep(x) then [x] else []
  {
    assert [x][..0] == [];
  }

  /** `df[df['Database name'] == db_id]` on the foreign-key frame. */
  function ForeignKeysOf(rows: seq<ForeignKeyRow>, db: string): (r: seq<ForeignKeyRow>)
    ensures forall x :: x in r <==> x in rows && x.db == db
  {
    Where(rows, (row: ForeignKeyRow) => row.db == db)
  }

  /** `T1.c1 = T2.c2`. */
  function ForeignKeyText(row: ForeignKeyRow): string {
    row.firstTable + "." + row.firstColumn + " = " + row.secondTable + "." + row.secondColumn
  }

  function ForeignKeyTexts(rows: seq<ForeignKeyRow>): (r: seq<string>)
    ensures |r| == |rows|
    ensures forall k | 0 <= k < |r| :: r[k] == ForeignKeyText(rows[k])
  {
    seq(|rows|, k requires 0 <= k < |rows| => ForeignKeyText(rows[k]))
  }

  /** The foreign keys of `db` as a bracketed, comma-separated list. */
  function ForeignKeyList(foreign: seq<ForeignKeyRow>, db: string): string {
    "[" + Join(ForeignKeyTexts(ForeignKeysOf(foreign, db)), ", ") + "]"
  }

  lemma JoinHead(xs: seq<string>, sep: string)
    requires |xs| > 0
    ensures |Join(xs, sep)| >= |xs[0]|
  {
  }

  /** The list is exactly `[]` when, and only when, `db` has no foreign key. */
  lemma ForeignKeyListEmpty(foreign: seq<ForeignKeyRow>, db: string)
    ensures ForeignKeyList(foreign, db) == "[]" <==> ForeignKeysOf(foreign, db) == []
  {
    var texts := ForeignKeyTexts(ForeignKeysOf(foreign, db));
    if |texts| > 0 {
      JoinHead(texts, ", ");
      assert |texts[0]| >= 3;
    }
  }

  /**
   * `find_foreign_keys_MYSQL_like`: `T1.c1 = T2.c2, ` is appended for every
   * foreign key of `db`, the last two characters are cut and `]` added; the
   * bare `]` left when there is none is replaced by `[]`.
   */
  method FindForeignKeys(foreign: seq<ForeignKeyRow>, db: string) returns (output: string)
    ensures output == ForeignKeyList(foreign, db)
  {
    var rows := ForeignKeysOf(foreign, db);
    output := "[";
    var i := 0;
    while i < |rows|
      invariant 0 <= i <= |rows|
      invariant output == "[" + Terminated(ForeignKeyTexts(rows[..i]), ", ")
    {
      var row := rows[i];
      var text := row.firstTable + "." + row.firstColumn + " = " + row.secondTable + "." + row.secondColumn;
      ForeignKeyTextsSnoc(rows, i);
      AppendTerminated("[", ForeignKeyTexts(rows[..i]), text);
      output := output + text + ", ";
      i := i + 1;
    }
    assert rows[..i] == rows;
    if |rows| > 0 {
      CutLastSeparator("[", ForeignKeyTexts(rows));
    }
    output := DropLastTwo(output) + "]";
    if |output| == 1 {
      output := "[]";
    }
  }

  /** Appending `x + ', '` to the text built so far. */
  lemma AppendTerminated(prefix: string, xs: seq<string>, x: string)
    ensures prefix + Terminated(xs + [x], ", ") == prefix + Terminated(xs, ", ") + x + ", "
  {
    TerminatedSnoc(xs, x, ", ");
  }

  lemma ForeignKeyTextsSnoc(rows: seq<ForeignKeyRow>, i: nat)
    requires i < |rows|
    ensures ForeignKeyTexts(rows[..i + 1]) == ForeignKeyTexts(rows[..i]) + [ForeignKeyText(rows[i])]
  {
    assert rows[..i + 1] == rows[..i] + [rows[i]];
  }

  lemma FieldNamesSnoc(rows: seq<FieldRow>, i: nat)
    requires i < |rows|
    ensures FieldNames(rows[..i + 1]) == FieldNames(rows[..i]) + [rows[i].field]
  {
    assert rows[..i + 1] == rows[..i] + [rows[i]];
  }

  /** `output[:-2]` after a loop that appended `x + ', '` for every `x` leaves the joined list. */
  lemma CutLastSeparator(prefix: string, xs: seq<string>)
    requires |xs| > 0
    ensures DropLastTwo(prefix + Terminated(xs, ", ")) == prefix + Join(xs, ", ")
  {
    TerminatedIsJoinPlusSep(xs, ", ");
    var joined := prefix + Join(xs, ", ");
    assert prefix + Terminated(xs, ", ") == joined + ", ";
    DropLastTwoOfSeparated(joined);
  }

  lemma DropLastTwoOfSeparated(s: string)
    ensures DropLastTwo(s + ", ") == s
  {
    assert (s + ", ")[..|s|] == s;
  }

  /** `df[df['Database name'] == db_id]` on the field frame. */
  function FieldsOf(rows: seq<FieldRow>, db: string): (r: seq<FieldRow>)
    ensures forall x :: x in r <==> x in rows && x.db == db
  {
    Where(rows, (row: FieldRow) => row.db == db)
  }

  /** The table names of `rows`, each once, in order of first appearance. */
  function TableNames(rows: seq<FieldRow>): seq<string>
    decreases |rows|
  {
    if |rows| == 0 then []
    else
      var names := TableNames(rows[..|rows| - 1]);
      var t := rows[|rows| - 1].table;
      if t in names then names else names + [t]
  }

  /** The group names of `groupby('Table Name')`: the table names in sorted order. */
  function GroupNames(rows: seq<FieldRow>): (r: seq<string>)
    ensures Ordering.Sorted(r)
  {
    Ordering.Sort(TableNames(rows))
  }

  /** The rows of one group, in their original order. */
  function Group(rows: seq<FieldRow>, table: string): (r: seq<FieldRow>)
    ensures forall x :: x in r <==> x in rows && x.table == table
  {
    Where(rows, (row: FieldRow) => row.table == table)
  }

  function FieldNames(rows: seq<FieldRow>): (r: seq<string>)
    ensures |r| == |rows|
    ensures forall k | 0 <= k < |r| :: r[k] == rows[k].field
  {
    seq(|rows|, k requires 0 <= k < |rows| => rows[k].field)
  }

  /** `Table t, columns = [f1, f2, ...]` and a newline. */
  function TableLine(table: string, fields: seq<string>): string {
    "Table " + table + ", columns = [" + Join(fields, ", ") + "]\n"
  }

  /** The lines of the groups `names`, in that order. */
  function Listing(rows: seq<FieldRow>, names: seq<string>): string
    decreases |names|
  {
    if |names| == 0 then ""
    else
      var last := names[|names| - 1];
      Listing(rows, names[..|names| - 1]) + TableLine(last, FieldNames(Group(rows, last)))
  }

  /** The field listing of `db`: one line per table, tables in sorted order. */
  function FieldListing(schema: seq<FieldRow>, db: string): string {
    var rows := FieldsOf(schema, db);
    Listing(rows, GroupNames(rows))
  }

  lemma {:induction false} TableNamesMembers(rows: seq<FieldRow>, t: string)
    ensures t in TableNames(rows) <==> exists k :: 0 <= k < |rows| && rows[k].table == t
    decreases |rows|
  {
    if |rows| > 0 {
      var init := rows[..|rows| - 1];
      TableNamesMembers(init, t);
      if t in TableNames(init) {
        var k :| 0 <= k < |init| && init[k].table == t;
        assert rows[k] == init[k];
      }
      if exists k :: 0 <= k < |rows| && rows[k].table == t {
        var k :| 0 <= k < |rows| && rows[k].table == t;
        if k < |init| { assert init[k] == rows[k]; }
      }
    }
  }

  /** The groups are exactly the tables that have a row. */
  lemma GroupNamesAreTables(rows: seq<FieldRow>, t: string)
    ensures t in GroupNames(rows) <==> exists k :: 0 <= k < |rows| && rows[k].table == t
  {
    assert t in GroupNames(rows) <==> t in multiset(GroupNames(rows));
    assert t in TableNames(rows) <==> t in multiset(TableNames(rows));
    TableNamesMembers(rows, t);
  }

  /** Every group has at least one row. */
  lemma GroupNonEmpty(rows: seq<FieldRow>, t: string)
    requires t in GroupNames(rows)
    ensures |Group(rows, t)| > 0
  {
    GroupNamesAreTables(rows, t);
    var k :| 0 <= k < |rows| && rows[k].table == t;
    assert rows[k] in Group(rows, t);
  }

  lemma {:induction false} TableNamesOnce(rows: seq<FieldRow>, t: string)
    ensures multiset(TableNames(rows))[t] <= 1
    decreases |rows|
  {
    if |rows| > 0 {
      var init := rows[..|rows| - 1];
      var names := TableNames(init);
      TableNamesOnce(init, t);
      var last := rows[|rows| - 1].table;
      if last !in names {
        assert multiset(names + [last]) == multiset(names) + multiset{last};
        assert multiset(names)[last] == 0;
      }
    }
  }

  lemma DistinctByCounts(s: seq<string>)
    requires forall t :: multiset(s)[t] <= 1
    ensures Dicts.Distinct(s)
  {
    forall i, j | 0 <= i < j < |s| ensures s[i] != s[j] {
      assert s == s[..j] + [s[j]] + s[j + 1..];
      assert s[..j][i] == s[i];
      assert multiset(s)[s[j]] == multiset(s[..j])[s[j]] + 1 + multiset(s[j + 1..])[s[j]];
    }
  }

  /** No table is listed twice. */
  lemma GroupNamesDistinct(rows: seq<FieldRow>)
    ensures Dicts.Distinct(GroupNames(rows))
  {
    forall t ensures multiset(GroupNames(rows))[t] <= 1 {
      TableNamesOnce(rows, t);
    }
    DistinctByCounts(GroupNames(rows));
  }

  /**
   * One pass of the outer loop of `find_fields_MYSQL_like`: `Table t, columns = [`
   * and `f, ` per field of the group are appended, the last two characters
   * cut and `]` and a newline added.
   */
  method AppendGroup(output: string, name: string, group: seq<FieldRow>) returns (r: string)
    requires |group| > 0
    ensures r == output + TableLine(name, FieldNames(group))
  {
    r := output + "Table " + name + ", columns = [";
    var start := r;
    var k := 0;
    while k < |group|
      invariant 0 <= k <= |group|
      invariant r == start + Terminated(FieldNames(group[..k]), ", ")
    {
      FieldNamesSnoc(group, k);
      AppendTerminated(start, FieldNames(group[..k]), group[k].field);
      r := r + group[k].field + ", ";
      k := k + 1;
    }
    assert group[..k] == group;
    CutLastSeparator(start, FieldNames(group));
    r := DropLastTwo(r);
    r := r + "]\n";
  }

  lemma ListingSnoc(rows: seq<FieldRow>, names: seq<string>, j: nat)
    requires j < |names|
    ensures Listing(rows, names[..j + 1]) == Listing(rows, names[..j]) + TableLine(names[j], FieldNames(Group(rows, names[j])))
  {
    assert names[..j + 1][..j] == names[..j];
  }

  /** `find_fields_MYSQL_like`: one line per group, groups in sorted order of table name. */
  method FindFields(schema: seq<FieldRow>, db: string) returns (output: string)
    ensures output == FieldListing(schema, db)
  {
    var rows := FieldsOf(schema, db);
    var names := GroupNames(rows);
    output := "";
    var j := 0;
    while j < |names|
      invariant 0 <= j <= |names|
      invariant output == Listing(rows, names[..j])
    {
      GroupNonEmpty(rows, names[j]);
      ListingSnoc(rows, names, j);
      output := AppendGroup(output, names[j], Group(rows, names[j]));
      j := j + 1;
    }
    assert names[..j] == names;
  }

  const ForeignKeysLabel := "Foreign_keys = "

  /**
   * `create_schema_prompt`: the field listing, then `Foreign_keys = ` and the
   * foreign-key list, lower-cased when `isLower`. The primary-key rows are
   * passed in but not read.
   */
  function CreateSchemaPrompt(db: string, schema: seq<FieldRow>, primary: seq<PrimaryKeyRow>,
    foreign: seq<ForeignKeyRow>, isLower: bool): (r: string)
    ensures isLower ==> forall k | 0 <= k < |r| :: !IsAsciiUpper(r[k])
    ensures |r| == |FieldListing(schema, db)| + |ForeignKeysLabel| + |ForeignKeyList(foreign, db)|
  {
    var prompt := FieldListing(schema, db) + ForeignKeysLabel + ForeignKeyList(foreign, db);
    if isLower then Lower(prompt) else prompt
  }

  lemma LowerConcat(a: string, b: string)
    ensures Lower(a + b) == Lower(a) + Lower(b)
  {
  }

  /**
   * The prompt starts with the field listing and ends with the foreign-key
   * list, each lower-cased with the prompt.
   */
  lemma PromptParts(db: string, schema: seq<FieldRow>, primary: seq<PrimaryKeyRow>,
    foreign: seq<ForeignKeyRow>, isLower: bool)
    ensures var case_ := (s: string) => if isLower then Lower(s) else s;
      var r := CreateSchemaPrompt(db, schema, primary, foreign, isLower);
      StartsWith(r, case_(FieldListing(schema, db))) && EndsWith(r, case_(ForeignKeysLabel + ForeignKeyList(foreign, db)))
  {
    var fields := FieldListing(schema, db);
    var tail := ForeignKeysLabel + ForeignKeyList(foreign, db);
    assert fields + ForeignKeysLabel + ForeignKeyList(foreign, db) == fields + tail;
    LowerConcat(fields, tail);
  }
}
