/** The catalog-row folding of the scanner (src/scanner.go). Each catalog query becomes
    the sequence of rows it returns, in arrival order; connecting, querying and logging
    are not modelled. A Go panic while scanning ends the run, so it becomes an `Err`. */
module Scanner {
  import opened Wrappers
  import opened Text
  import opened Models
  import opened Mapping

  /** A name `toJsonName` can take without panicking (for a name without spaces: any
      but a non-empty run of underscores). The scan of a table requires every catalog
      name it names to be one. */
  predicate Nameable(name: string) {
    ToJsonName(name).Some?
  }

  /** The JSON name of a catalog name; the scan only reaches `Nameable` names, on which
      this is `toJsonName`'s result. */
  function JsonNameOf(name: string): string {
    ToJsonName(name).GetOr([])
  }

  // ---------------------------------------------------------------- rows

  /** One row of the tables query; a NULL description is `None`. */
  datatype TableRow = TableRow(tableName: string, tableType: string, canInsert: string, comment: Option<string>)

  /** One row of the columns query; the nullable catalog values are `Option`s. */
  datatype ColumnRow = ColumnRow(
    position: int,
    name: string,
    nullable: string,
    dataType: string,
    maxLen: Option<int>,
    columnDefault: Option<string>,
    numericPrecision: Option<int>,
    comment: Option<string>)

  /** One row of the constraints query: one column of one constraint. */
  datatype ConstraintRow = ConstraintRow(name: string, columnName: string, constraintType: string, refTable: string, refColumn: string)

  /** One row of the indexes query; `indkey` lists column positions separated by spaces. */
  datatype IndexRow = IndexRow(name: string, indkey: string, isPrimary: bool, isUnique: bool)

  // ---------------------------------------------------------------- columns

  /** The column record of one row (`scanColumns`' loop body). It fails exactly when the
      type mapping refuses the catalog type, with the mapping's message. */
  function ColumnOf(r: ColumnRow, isView: bool): Result<Column>
  {
    var isNullable := Lower(r.nullable) == "yes";
    var dataType := MapPostgresTypeToGoWithNullable(r.dataType, isNullable);
    if dataType.Err? then Err(dataType.message)
    else
      Ok(Column(
        Position := r.position,
        ColumnName := r.name,
        CodeName := ProperName(r.name, false),
        DisplayName := ProperName(r.name, true),
        JsonName := JsonNameOf(r.name),
        SlugName := ToSlug(r.name),
        Comment := TrimSpace(r.comment.GetOr("")),
        IsPrimaryKey := false,
        IsNullable := isNullable,
        IsCardinal := IsPostgresTypeCardinal(r.dataType),
        HasMaxLen := r.maxLen.Some?,
        HasDefault := r.columnDefault.Some?,
        HasPrecision := r.numericPrecision.Some?,
        CanFilter := isView,
        SqlType := r.dataType,
        DataType := dataType.value,
        MaxLen := r.maxLen,
        ColumnDefault := r.columnDefault,
        NumericPrecision := r.numericPrecision))
  }

  /** A row's record fails exactly when the type mapping refuses the catalog type, with
      the mapping's message; otherwise it is well formed. */
  lemma ColumnOfFaults(r: ColumnRow, isView: bool)
    ensures ColumnOf(r, isView).Ok? <==> MapPostgresTypeToGo(r.dataType).Ok?
    ensures ColumnOf(r, isView).Err? ==> ColumnOf(r, isView).message == MapPostgresTypeToGo(r.dataType).message
    ensures ColumnOf(r, isView).Ok? ==> ColumnOf(r, isView).value.WellFormed() && ColumnOf(r, isView).value.Dereferenceable()
  {
  }

  predicate ColumnRowsNameable(rows: seq<ColumnRow>) {
    forall i :: 0 <= i < |rows| ==> Nameable(rows[i].name)
  }

  /** The record of every row, in arrival order. */
  function ColumnResults(rows: seq<ColumnRow>, isView: bool): (rs: seq<Result<Column>>)
    ensures |rs| == |rows| && forall i :: 0 <= i < |rows| ==> rs[i] == ColumnOf(rows[i], isView)
  {
    seq(|rows|, i requires 0 <= i < |rows| => ColumnOf(rows[i], isView))
  }

  /** The columns of a table, one per row in arrival order; the first refused row stops
      the scan. */
  function ColumnsOf(rows: seq<ColumnRow>, isView: bool): Result<seq<Column>>
  {
    Collect(ColumnResults(rows, isView))
  }

  /** `scanColumns`: appends the record of every row, in arrival order. */
  method ScanColumns(rows: seq<ColumnRow>, isView: bool) returns (result: Result<seq<Column>>)
    ensures result == ColumnsOf(rows, isView)
  {
    ghost var rs := ColumnResults(rows, isView);
    var cols: seq<Column> := [];
    for i := 0 to |rows|
      invariant Collect(rs[..i]) == Ok(cols)
    {
      var col := ColumnOf(rows[i], isView);
      CollectSnoc(rs, i);
      if col.Err? {
        CollectFaultPersists(rs, i + 1);
        return Err(col.message);
      }
      cols := cols + [col.value];
    }
    assert rs[..|rows|] == rs;
    return Ok(cols);
  }

  /** The scan keeps the rows' arrival order and succeeds exactly when every row's type
      is accepted; it never re-sorts. */
  lemma ColumnsInArrivalOrder(rows: seq<ColumnRow>, isView: bool)
    ensures ColumnsOf(rows, isView).Ok? <==>
              forall i :: 0 <= i < |rows| ==> MapPostgresTypeToGo(rows[i].dataType).Ok?
    ensures ColumnsOf(rows, isView).Ok? ==>
              && |ColumnsOf(rows, isView).value| == |rows|
              && forall i :: 0 <= i < |rows| ==> ColumnOf(rows[i], isView) == Ok(ColumnsOf(rows, isView).value[i])
  {
    CollectOkIff(ColumnResults(rows, isView));
    forall i | 0 <= i < |rows| {
      ColumnOfFaults(rows[i], isView);
    }
  }

  /** A failed scan reports the first row whose catalog type the mapping refuses. */
  lemma ColumnsFirstFault(rows: seq<ColumnRow>, isView: bool)
    requires ColumnsOf(rows, isView).Err?
    ensures exists i :: 0 <= i < |rows|
              && MapPostgresTypeToGo(rows[i].dataType).Err?
              && ColumnsOf(rows, isView).message == MapPostgresTypeToGo(rows[i].dataType).message
              && forall j :: 0 <= j < i ==> MapPostgresTypeToGo(rows[j].dataType).Ok?
  {
    CollectFirstFault(ColumnResults(rows, isView));
    forall i | 0 <= i < |rows| {
      ColumnOfFaults(rows[i], isView);
    }
  }

  /** Every scanned column is well formed, starts as no primary key, and is filterable
      exactly when the relation is a view. */
  lemma ScannedColumnsFresh(rows: seq<ColumnRow>, isView: bool)
    requires ColumnsOf(rows, isView).Ok?
    ensures forall c :: c in ColumnsOf(rows, isView).value ==>
              c.WellFormed() && c.Dereferenceable() && !c.IsPrimaryKey && c.CanFilter == isView
  {
    ColumnsInArrivalOrder(rows, isView);
    forall i | 0 <= i < |rows| {
      ColumnOfFaults(rows[i], isView);
    }
  }

  // ---------------------------------------------------------------- constraints

  /** The constraint a name's first row creates (`scanConstraints`' else branch): kind
      flags by case-insensitive comparison of the constraint type, and the referenced
      table and column only for a foreign key. */
  function ConstraintOf(r: ConstraintRow): Constraint
  {
    var kind := Lower(r.constraintType);
    var isForeignKey := kind == "foreign key";
    Constraint(
      ConstraintName := r.name,
      CodeName := ProperName(r.name, false),
      DisplayName := ProperName(r.name, true),
      JsonName := JsonNameOf(r.name),
      SlugName := ToSlug(r.name),
      IsPrimaryKey := kind == "primary key",
      IsForeignKey := isForeignKey,
      IsUniqueKey := kind == "unique",
      ColumnNames := [r.columnName],
      ConstraintType := r.constraintType,
      ForeignTable := if isForeignKey then Some(r.refTable) else None,
      ForeignColumn := if isForeignKey then Some(r.refColumn) else None)
  }

  /** A created constraint has at most one kind, knows its reference exactly when it is
      a foreign key, and starts with the row's one column. */
  lemma ConstraintOfShape(r: ConstraintRow)
    ensures var c := ConstraintOf(r);
      && c.WellFormed()
      && !(c.IsPrimaryKey && c.IsForeignKey)
      && !(c.IsPrimaryKey && c.IsUniqueKey)
      && !(c.IsForeignKey && c.IsUniqueKey)
      && (c.IsForeignKey <==> Lower(r.constraintType) == "foreign key")
      && c.ConstraintName == r.name
      && c.ColumnNames == [r.columnName]
  {
  }

  predicate ConstraintRowsNameable(rows: seq<ConstraintRow>) {
    forall i :: 0 <= i < |rows| ==> Nameable(rows[i].name)
  }

  /** The distinct constraint names of the rows, in order of first appearance. */
  function ConstraintNames(rows: seq<ConstraintRow>): seq<string> {
    if rows == [] then []
    else
      var names := ConstraintNames(rows[..|rows| - 1]);
      var n := rows[|rows| - 1].name;
      if n in names then names else names + [n]
  }

  /** The column names of every row of constraint `n`, in arrival order, repeats kept. */
  function ColumnsOfConstraint(rows: seq<ConstraintRow>, n: string): seq<string> {
    if rows == [] then []
    else
      var r := rows[|rows| - 1];
      ColumnsOfConstraint(rows[..|rows| - 1], n) + (if r.name == n then [r.columnName] else [])
  }

  /** The first row of constraint `n`. */
  function FirstRowNamed(rows: seq<ConstraintRow>, n: string): (r: ConstraintRow)
    requires n in ConstraintNames(rows)
    ensures r in rows && r.name == n
  {
    var init := rows[..|rows| - 1];
    if n in ConstraintNames(init) then
      var r := FirstRowNamed(init, n);
      assert r in rows by { assert r == rows[PositionOf(init, r)]; }
      r
    else rows[|rows| - 1]
  }

  function PositionOf<T(==)>(xs: seq<T>, x: T): (i: nat)
    requires x in xs
    ensures i < |xs| && xs[i] == x
  {
    if xs[0] == x then 0 else 1 + PositionOf(xs[1..], x)
  }

  /** The constraint of name `n`: created from its first row, holding the columns of
      all its rows in arrival order. */
  function ConstraintNamed(rows: seq<ConstraintRow>, n: string): Constraint
    requires n in ConstraintNames(rows)
  {
    ConstraintOf(FirstRowNamed(rows, n)).(ColumnNames := ColumnsOfConstraint(rows, n))
  }

  /** The reference reading of the fold: one constraint per distinct name, in order of
      first appearance. */
  function ReferenceConstraints(rows: seq<ConstraintRow>): (cs: seq<Constraint>)
    ensures |cs| == |ConstraintNames(rows)|
    ensures forall k :: 0 <= k < |cs| ==> cs[k] == ConstraintNamed(rows, ConstraintNames(rows)[k])
  {
    var names := ConstraintNames(rows);
    seq(|names|, k requires 0 <= k < |names| => ConstraintNamed(rows, names[k]))
  }

  predicate Distinct<T(==)>(xs: seq<T>) {
    forall i, j :: 0 <= i < j < |xs| ==> xs[i] != xs[j]
  }

  /** No constraint name is listed twice. */
  lemma {:induction false} ConstraintNamesDistinct(rows: seq<ConstraintRow>)
    ensures Distinct(ConstraintNames(rows))
  {
    if rows != [] {
      ConstraintNamesDistinct(rows[..|rows| - 1]);
    }
  }

  /** The listed names are exactly the rows' names. */
  lemma {:induction false} ConstraintNamesExact(rows: seq<ConstraintRow>)
    ensures forall n :: n in ConstraintNames(rows) <==> exists i :: 0 <= i < |rows| && rows[i].name == n
  {
    if rows != [] {
      var init := rows[..|rows| - 1];
      ConstraintNamesExact(init);
      assert forall i :: 0 <= i < |init| ==> init[i] == rows[i];
    }
  }

  /** One more row, by the definitions of the name list, the column lists and the first
      rows. */
  lemma ConstraintRowSnoc(init: seq<ConstraintRow>, r: ConstraintRow)
    ensures ConstraintNames(init + [r]) ==
              if r.name in ConstraintNames(init) then ConstraintNames(init) else ConstraintNames(init) + [r.name]
    ensures forall n :: ColumnsOfConstraint(init + [r], n) ==
              ColumnsOfConstraint(init, n) + (if r.name == n then [r.columnName] else [])
    ensures forall n :: n in ConstraintNames(init) ==> FirstRowNamed(init + [r], n) == FirstRowNamed(init, n)
    ensures r.name !in ConstraintNames(init) ==> FirstRowNamed(init + [r], r.name) == r
  {
    assert (init + [r])[..|init|] == init;
  }

  /** One more row changes the constraint of its own name only, by appending its
      column. */
  lemma ConstraintNamedSnoc(init: seq<ConstraintRow>, r: ConstraintRow, n: string)
    requires n in ConstraintNames(init)
    ensures ConstraintNamed(init + [r], n) ==
              var c := ConstraintNamed(init, n);
              if n == r.name then c.(ColumnNames := c.ColumnNames + [r.columnName]) else c
  {
    var rows := init + [r];
    assert forall i :: 0 <= i < |init| ==> init[i] == rows[i];
    assert rows[|init|] == r;
    ConstraintRowSnoc(init, r);
  }

  /** A row with a new name creates its constraint exactly as the row says. */
  lemma ConstraintNamedFirst(init: seq<ConstraintRow>, r: ConstraintRow)
    requires r.name !in ConstraintNames(init)
    ensures r.name in ConstraintNames(init + [r])
    ensures ConstraintNamed(init + [r], r.name) == ConstraintOf(r)
  {
    var rows := init + [r];
    ConstraintRowSnoc(init, r);
    ColumnsOfAbsent(init, r.name);
    var c := ConstraintOf(r);
    assert FirstRowNamed(rows, r.name) == r;
    assert ColumnsOfConstraint(rows, r.name) == [r.columnName];
    assert c.(ColumnNames := [r.columnName]) == c;
  }

  /** The constraint list after a row whose name is already listed at `k`: that
      constraint gains the row's column and nothing else changes. */
  lemma ReferenceSnocKnown(init: seq<ConstraintRow>, r: ConstraintRow, k: nat)
    requires k < |ConstraintNames(init)| && ConstraintNames(init)[k] == r.name
    ensures var before := ReferenceConstraints(init);
      ReferenceConstraints(init + [r]) == before[k := before[k].(ColumnNames := before[k].ColumnNames + [r.columnName])]
  {
    var rows := init + [r];
    ConstraintNamedSnoc(init, r, r.name);
    ConstraintRowSnoc(init, r);
    ConstraintNamesDistinct(init);
    var names := ConstraintNames(init);
    var before := ReferenceConstraints(init);
    var after := ReferenceConstraints(rows);
    var expected := before[k := before[k].(ColumnNames := before[k].ColumnNames + [r.columnName])];
    forall j | 0 <= j < |names|
      ensures after[j] == expected[j]
    {
      ConstraintNamedSnoc(init, r, names[j]);
    }
  }

  /** The constraint list after a row with a new name: one new constraint at the end. */
  lemma ReferenceSnocNew(init: seq<ConstraintRow>, r: ConstraintRow)
    requires r.name !in ConstraintNames(init)
    ensures ReferenceConstraints(init + [r]) == ReferenceConstraints(init) + [ConstraintOf(r)]
  {
    var rows := init + [r];
    ConstraintRowSnoc(init, r);
    var names := ConstraintNames(init);
    var before := ReferenceConstraints(init);
    var after := ReferenceConstraints(rows);
    forall j | 0 <= j < |names|
      ensures after[j] == before[j]
    {
      ConstraintNamedSnoc(init, r, names[j]);
    }
    ConstraintNamedFirst(init, r);
    assert after[|names|] == ConstraintOf(r);
  }

  /** A name that has no row has no columns. */
  lemma {:induction false} ColumnsOfAbsent(rows: seq<ConstraintRow>, n: string)
    requires n !in ConstraintNames(rows)
    ensures ColumnsOfConstraint(rows, n) == []
  {
    if rows != [] {
      ColumnsOfAbsent(rows[..|rows| - 1], n);
    }
  }

  /** The `columnAdded` map: it holds exactly the listed names, each at its position. */
  ghost predicate AddedIndexes(columnAdded: map<string, nat>, names: seq<string>) {
    && (forall n :: n in columnAdded <==> n in names)
    && (forall k :: 0 <= k < |names| ==> names[k] in columnAdded && columnAdded[names[k]] == k)
  }

  /** Recording a new name at the next position keeps the map exact. */
  lemma AddedIndexesSnoc(columnAdded: map<string, nat>, names: seq<string>, n: string)
    requires AddedIndexes(columnAdded, names) && n !in names
    ensures AddedIndexes(columnAdded[n := |names|], names + [n])
  {
    var names' := names + [n];
    forall k | 0 <= k < |names'|
      ensures names'[k] in columnAdded[n := |names|] && columnAdded[n := |names|][names'[k]] == k
    {
      if k < |names| {
        assert names'[k] == names[k];
      }
    }
  }

  /** The constraint literal of a name's first row, then the reference fields set for a
      foreign key. */
  method NewConstraint(row: ConstraintRow) returns (constraint: Constraint)
    ensures constraint == ConstraintOf(row)
  {
    var constraintType := Lower(row.constraintType);
    constraint := Constraint(
      ConstraintName := row.name,
      CodeName := ProperName(row.name, false),
      DisplayName := ProperName(row.name, true),
      JsonName := JsonNameOf(row.name),
      SlugName := ToSlug(row.name),
      IsPrimaryKey := constraintType == "primary key",
      IsForeignKey := constraintType == "foreign key",
      IsUniqueKey := constraintType == "unique",
      ColumnNames := [row.columnName],
      ConstraintType := row.constraintType,
      ForeignTable := None,
      ForeignColumn := None);
    if constraint.IsForeignKey {
      constraint := constraint.(ForeignTable := Some(row.refTable), ForeignColumn := Some(row.refColumn));
    }
  }

  /** The map finds a held name at that name's position. */
  lemma AddedIndexesLookup(columnAdded: map<string, nat>, names: seq<string>, n: string)
    requires AddedIndexes(columnAdded, names) && n in columnAdded
    ensures columnAdded[n] < |names| && names[columnAdded[n]] == n
  {
    var j := PositionOf(names, n);
    assert columnAdded[names[j]] == j;
  }

  lemma ConstraintNamesStep(rows: seq<ConstraintRow>, i: nat)
    requires i < |rows|
    ensures ConstraintNames(rows[..i + 1]) ==
              var names := ConstraintNames(rows[..i]);
              if rows[i].name in names then names else names + [rows[i].name]
  {
    assert rows[..i + 1] == rows[..i] + [rows[i]];
    ConstraintRowSnoc(rows[..i], rows[i]);
  }

  /** A row whose name is listed at `k`: that constraint gains the row's column. */
  lemma ConstraintStepKnown(rows: seq<ConstraintRow>, i: nat, k: nat)
    requires i < |rows|
    requires k < |ConstraintNames(rows[..i])| && ConstraintNames(rows[..i])[k] == rows[i].name
    ensures var before := ReferenceConstraints(rows[..i]);
      ReferenceConstraints(rows[..i + 1]) == before[k := before[k].(ColumnNames := before[k].ColumnNames + [rows[i].columnName])]
  {
    assert rows[..i + 1] == rows[..i] + [rows[i]];
    ReferenceSnocKnown(rows[..i], rows[i], k);
  }

  /** A row with a name not yet listed: a new constraint at the end. */
  lemma ConstraintStepNew(rows: seq<ConstraintRow>, i: nat)
    requires i < |rows|
    requires rows[i].name !in ConstraintNames(rows[..i])
    ensures ReferenceConstraints(rows[..i + 1]) == ReferenceConstraints(rows[..i]) + [ConstraintOf(rows[i])]
  {
    assert rows[..i + 1] == rows[..i] + [rows[i]];
    ReferenceSnocNew(rows[..i], rows[i]);
  }

  /** `scanConstraints`: folds the rows by constraint name through the `columnAdded` map;
      the first row of a name creates its constraint and later rows append a column. */
  method ScanConstraints(rows: seq<ConstraintRow>) returns (result: seq<Constraint>)
    ensures result == ReferenceConstraints(rows)
  {
    result := [];
    var columnAdded: map<string, nat> := map[];
    for i := 0 to |rows|
      invariant result == ReferenceConstraints(rows[..i])
      invariant AddedIndexes(columnAdded, ConstraintNames(rows[..i]))
    {
      var row := rows[i];
      ghost var names := ConstraintNames(rows[..i]);
      ConstraintNamesStep(rows, i);
      if row.name in columnAdded {
        var k := columnAdded[row.name];
        AddedIndexesLookup(columnAdded, names, row.name);
        ConstraintStepKnown(rows, i, k);
        result := result[k := result[k].(ColumnNames := result[k].ColumnNames + [row.columnName])];
      } else {
        var constraint := NewConstraint(row);
        ConstraintStepNew(rows, i);
        AddedIndexesSnoc(columnAdded, names, row.name);
        result := result + [constraint];
        columnAdded := columnAdded[row.name := |result| - 1];
      }
    }
    assert rows[..|rows|] == rows;
  }

  /** Every row's column is listed under its constraint name. */
  lemma {:induction false} ColumnsOfConstraintHas(rows: seq<ConstraintRow>, i: nat)
    requires i < |rows|
    ensures rows[i].columnName in ColumnsOfConstraint(rows, rows[i].name)
  {
    if i < |rows| - 1 {
      var init := rows[..|rows| - 1];
      assert init[i] == rows[i];
      ColumnsOfConstraintHas(init, i);
    }
  }

  /** What the fold promises: one constraint per distinct name, each with at most one
      kind and its reference exactly when it is a foreign key, the kind read from the
      name's first row, and every row's column listed under its name. */
  lemma ReferenceConstraintsFaithful(rows: seq<ConstraintRow>)
    ensures var cs := ReferenceConstraints(rows);
      && (forall k, l :: 0 <= k < l < |cs| ==> cs[k].ConstraintName != cs[l].ConstraintName)
      && (forall k :: 0 <= k < |cs| ==>
            && cs[k].WellFormed()
            && !(cs[k].IsPrimaryKey && cs[k].IsForeignKey)
            && !(cs[k].IsPrimaryKey && cs[k].IsUniqueKey)
            && !(cs[k].IsForeignKey && cs[k].IsUniqueKey)
            && (cs[k].IsForeignKey <==> Lower(FirstRowNamed(rows, cs[k].ConstraintName).constraintType) == "foreign key"))
      && (forall i :: 0 <= i < |rows| ==>
            exists k :: 0 <= k < |cs| && cs[k].ConstraintName == rows[i].name && rows[i].columnName in cs[k].ColumnNames)
  {
    var cs := ReferenceConstraints(rows);
    var names := ConstraintNames(rows);
    ConstraintNamesDistinct(rows);
    ConstraintNamesExact(rows);
    forall k | 0 <= k < |cs|
      ensures cs[k].ConstraintName == names[k]
      ensures && cs[k].WellFormed()
              && !(cs[k].IsPrimaryKey && cs[k].IsForeignKey)
              && !(cs[k].IsPrimaryKey && cs[k].IsUniqueKey)
              && !(cs[k].IsForeignKey && cs[k].IsUniqueKey)
              && (cs[k].IsForeignKey <==> Lower(FirstRowNamed(rows, names[k]).constraintType) == "foreign key")
    {
      ConstraintOfShape(FirstRowNamed(rows, names[k]));
    }
    forall i | 0 <= i < |rows|
      ensures exists k :: 0 <= k < |cs| && cs[k].ConstraintName == rows[i].name && rows[i].columnName in cs[k].ColumnNames
    {
      var k := PositionOf(names, rows[i].name);
      ColumnsOfConstraintHas(rows, i);
      assert cs[k].ConstraintName == rows[i].name && rows[i].columnName in cs[k].ColumnNames;
    }
  }

  // ---------------------------------------------------------------- indexes

  /** The names of the columns at position `p`, in column order. */
  function NamesAt(cols: seq<Column>, p: int): seq<string> {
    if cols == [] then []
    else
      var c := cols[|cols| - 1];
      NamesAt(cols[..|cols| - 1], p) + (if c.Position == p then [c.ColumnName] else [])
  }

  /** The positions the `indkey` tokens name: `strconv.Atoi` with its error dropped, so a
      token that is not a number reads as 0. */
  function KeyPositions(tokens: seq<string>): (ps: seq<int>)
    ensures |ps| == |tokens| && forall t :: 0 <= t < |tokens| ==> ps[t] == AtoiOrZero(tokens[t])
  {
    seq(|tokens|, t requires 0 <= t < |tokens| => AtoiOrZero(tokens[t]))
  }

  /** The column names the key positions resolve to, position by position; a position no
      column has resolves nothing. */
  function ResolveNames(cols: seq<Column>, ps: seq<int>): seq<string> {
    if ps == [] then []
    else ResolveNames(cols, ps[..|ps| - 1]) + NamesAt(cols, ps[|ps| - 1])
  }

  /** The column names an `indkey` resolves to. */
  function KeyNames(cols: seq<Column>, indkey: string): seq<string> {
    ResolveNames(cols, KeyPositions(SplitOn(indkey, ' ')))
  }

  /** The message of the panic on `idx.ColumnNames[0]` when a key resolves nothing. */
  const IndexPanic := "runtime error: index out of range [0] with length 0"

  /** The index literal of one row, before any column is resolved. */
  function IndexShell(r: IndexRow): Index
  {
    Index(
      IndexName := r.name,
      CodeName := ProperName(r.name, false),
      DisplayName := ProperName(r.name, true),
      JsonName := JsonNameOf(r.name),
      SlugName := ToSlug(r.name),
      ColumnNames := [],
      IsPrimaryKey := r.isPrimary,
      IsUnique := r.isUnique)
  }

  /** The index of one row with its resolved columns. A key that resolves no column is
      the panic, raised by the back-fill loop's first read of the first name; a table
      without columns never runs that loop, so its indexes keep no column names. */
  function IndexRecord(r: IndexRow, cols: seq<Column>): Result<Index>
  {
    var names := KeyNames(cols, r.indkey);
    if names == [] && cols != [] then Err(IndexPanic) else Ok(IndexShell(r).(ColumnNames := names))
  }

  predicate IndexRowsNameable(rows: seq<IndexRow>) {
    forall k :: 0 <= k < |rows| ==> Nameable(rows[k].name)
  }

  function IndexResults(cols: seq<Column>, rows: seq<IndexRow>): (rs: seq<Result<Index>>)
    ensures |rs| == |rows| && forall k :: 0 <= k < |rows| ==> rs[k] == IndexRecord(rows[k], cols)
  {
    seq(|rows|, k requires 0 <= k < |rows| => IndexRecord(rows[k], cols))
  }

  /** The indexes of a table, one per row in arrival order, or the first panic. */
  function IndexesOf(cols: seq<Column>, rows: seq<IndexRow>): Result<seq<Index>>
  {
    Collect(IndexResults(cols, rows))
  }

  /** A column after the back-fill of an index whose first column is `name`. */
  function Filled(c: Column, name: string, isPrimary: bool): Column {
    if c.ColumnName == name then c.(IsPrimaryKey := isPrimary, CanFilter := true) else c
  }

  function BackFill(cols: seq<Column>, name: string, isPrimary: bool): (r: seq<Column>)
    ensures |r| == |cols| && forall i :: 0 <= i < |cols| ==> r[i] == Filled(cols[i], name, isPrimary)
  {
    seq(|cols|, i requires 0 <= i < |cols| => Filled(cols[i], name, isPrimary))
  }

  predicate Resolved(idxs: seq<Index>) {
    forall k :: 0 <= k < |idxs| ==> idxs[k].ColumnNames != []
  }

  /** The index's first column is `name`. */
  predicate Leads(idx: Index, name: string) {
    idx.ColumnNames != [] && idx.ColumnNames[0] == name
  }

  /** The back-fill of one index. An index without column names back-fills nothing:
      the scan keeps one only for a table without columns, where the loop is empty. */
  function BackFillIndex(cols: seq<Column>, idx: Index): (r: seq<Column>)
    ensures |r| == |cols|
  {
    if idx.ColumnNames == [] then cols else BackFill(cols, idx.ColumnNames[0], idx.IsPrimaryKey)
  }

  /** The columns after the back-fill of every index, in order. */
  function BackFilled(cols: seq<Column>, idxs: seq<Index>): (r: seq<Column>)
    ensures |r| == |cols|
  {
    if idxs == [] then cols
    else BackFillIndex(BackFilled(cols, idxs[..|idxs| - 1]), idxs[|idxs| - 1])
  }

  /** Same names at the same positions: what the back-fill never changes. */
  predicate SameShape(a: seq<Column>, b: seq<Column>) {
    && |a| == |b|
    && forall i :: 0 <= i < |a| ==> a[i].ColumnName == b[i].ColumnName && a[i].Position == b[i].Position
  }

  lemma {:induction false} NamesAtShape(a: seq<Column>, b: seq<Column>, p: int)
    requires SameShape(a, b)
    ensures NamesAt(a, p) == NamesAt(b, p)
  {
    if a != [] {
      NamesAtShape(a[..|a| - 1], b[..|b| - 1], p);
    }
  }

  /** Key resolution reads only names and positions. */
  lemma {:induction false} ResolveNamesShape(a: seq<Column>, b: seq<Column>, ps: seq<int>)
    requires SameShape(a, b)
    ensures ResolveNames(a, ps) == ResolveNames(b, ps)
  {
    if ps != [] {
      ResolveNamesShape(a, b, ps[..|ps| - 1]);
      NamesAtShape(a, b, ps[|ps| - 1]);
    }
  }

  lemma ResolveNamesSnoc(cols: seq<Column>, ps: seq<int>, t: nat)
    requires t < |ps|
    ensures ResolveNames(cols, ps[..t + 1]) == ResolveNames(cols, ps[..t]) + NamesAt(cols, ps[t])
  {
    assert ps[..t + 1][..t] == ps[..t];
  }

  lemma NamesAtSnoc(cols: seq<Column>, p: int, c: nat)
    requires c < |cols|
    ensures NamesAt(cols[..c + 1], p) == NamesAt(cols[..c], p) + (if cols[c].Position == p then [cols[c].ColumnName] else [])
  {
    assert cols[..c + 1][..c] == cols[..c];
  }

  /** One more resolved index: the back-fill of the new index follows the earlier ones. */
  lemma BackFilledSnoc(cols: seq<Column>, idxs: seq<Index>, idx: Index)
    ensures BackFilled(cols, idxs + [idx]) == BackFillIndex(BackFilled(cols, idxs), idx)
  {
    assert (idxs + [idx])[..|idxs|] == idxs;
  }

  lemma {:induction false} BackFilledShape(cols: seq<Column>, idxs: seq<Index>)
    ensures SameShape(BackFilled(cols, idxs), cols)
  {
    if idxs != [] {
      BackFilledShape(cols, idxs[..|idxs| - 1]);
    }
  }

  /** The key columns of one index row, resolved against the columns as they stand. */
  method ResolveIndex(cols: array<Column>, row: IndexRow) returns (idx: Index)
    ensures idx == IndexShell(row).(ColumnNames := KeyNames(cols[..], row.indkey))
  {
    idx := IndexShell(row);
    ghost var shell := idx;
    var tokens := SplitOn(row.indkey, ' ');
    ghost var ps := KeyPositions(tokens);
    for t := 0 to |tokens|
      invariant idx == shell.(ColumnNames := ResolveNames(cols[..], ps[..t]))
    {
      var position := AtoiOrZero(tokens[t]);
      ResolveNamesSnoc(cols[..], ps, t);
      ghost var resolved := idx.ColumnNames;
      for c := 0 to cols.Length
        invariant idx == shell.(ColumnNames := resolved + NamesAt(cols[..c], position))
      {
        NamesAtSnoc(cols[..], position, c);
        if cols[c].Position == position {
          AppendAssoc(resolved, NamesAt(cols[..c], position), [cols[c].ColumnName]);
          idx := idx.(ColumnNames := idx.ColumnNames + [cols[c].ColumnName]);
        } else {
          assert NamesAt(cols[..c + 1], position) == NamesAt(cols[..c], position);
        }
      }
      assert cols[..][..cols.Length] == cols[..];
    }
    assert ps[..|tokens|] == ps;
  }

  /** The back-fill loop of one index: sets the key flag and marks filterable every
      column named like the index's first column. Each pass reads that first name, so an
      index without column names panics on the first column (`ok` is false, and nothing
      has changed), and only a table without columns lets it through. */
  method FillColumns(cols: array<Column>, idx: Index) returns (ok: bool)
    modifies cols
    ensures ok <==> cols.Length == 0 || idx.ColumnNames != []
    ensures ok ==> cols[..] == BackFillIndex(old(cols[..]), idx)
    ensures !ok ==> cols[..] == old(cols[..])
  {
    for i := 0 to cols.Length
      invariant idx.ColumnNames != [] ==>
                  forall j :: 0 <= j < i ==> cols[j] == Filled(old(cols[j]), idx.ColumnNames[0], idx.IsPrimaryKey)
      invariant forall j :: i <= j < cols.Length ==> cols[j] == old(cols[j])
      invariant idx.ColumnNames == [] ==> i == 0
    {
      if |idx.ColumnNames| == 0 {
        assert cols[..] == old(cols[..]);
        return false;
      }
      if cols[i].ColumnName == idx.ColumnNames[0] {
        cols[i] := cols[i].(IsPrimaryKey := idx.IsPrimaryKey, CanFilter := true);
      }
    }
    return true;
  }

  /** `scanIndexes`: resolves every index row's key to column names and back-fills the
      key flag and `CanFilter` on the columns named like the index's first column. The
      table reaches this function by value, but its columns share storage with the
      caller's, so the back-fill updates the caller's columns in place. */
  method ScanIndexes(cols: array<Column>, rows: seq<IndexRow>) returns (result: Result<seq<Index>>)
    modifies cols
    ensures result == IndexesOf(old(cols[..]), rows)
    ensures result.Ok? ==> cols[..] == BackFilled(old(cols[..]), result.value)
    ensures result.Ok? && cols.Length > 0 ==> Resolved(result.value)
  {
    ghost var original := cols[..];
    ghost var rs := IndexResults(original, rows);
    var indexes: seq<Index> := [];
    for k := 0 to |rows|
      invariant Collect(rs[..k]) == Ok(indexes)
      invariant cols[..] == BackFilled(original, indexes)
      invariant cols.Length > 0 ==> Resolved(indexes)
    {
      var row := rows[k];
      var idx := ResolveIndex(cols, row);
      BackFilledShape(original, indexes);
      ResolveNamesShape(cols[..], original, KeyPositions(SplitOn(row.indkey, ' ')));
      CollectSnoc(rs, k);
      var ok := FillColumns(cols, idx);
      if !ok {
        CollectFaultPersists(rs, k + 1);
        return Err(IndexPanic);
      }
      BackFilledSnoc(original, indexes, idx);
      indexes := indexes + [idx];
    }
    assert rs[..|rows|] == rs;
    return Ok(indexes);
  }

  /** A column name is listed at position `p` exactly when some column at `p` has it. */
  lemma {:induction false} NamesAtIff(cols: seq<Column>, p: int, n: string)
    ensures n in NamesAt(cols, p) <==> exists i :: 0 <= i < |cols| && cols[i].Position == p && cols[i].ColumnName == n
  {
    if cols != [] {
      var init := cols[..|cols| - 1];
      NamesAtIff(init, p, n);
      assert forall i :: 0 <= i < |init| ==> init[i] == cols[i];
    }
  }

  lemma {:induction false} ResolveNamesHas(cols: seq<Column>, ps: seq<int>, n: string)
    ensures n in ResolveNames(cols, ps) <==> exists t :: 0 <= t < |ps| && n in NamesAt(cols, ps[t])
  {
    if ps != [] {
      var init := ps[..|ps| - 1];
      ResolveNamesHas(cols, init, n);
      assert forall t :: 0 <= t < |init| ==> init[t] == ps[t];
    }
  }

  lemma KeyNamesSound(cols: seq<Column>, indkey: string, n: string)
    requires n in KeyNames(cols, indkey)
    ensures exists t, i :: 0 <= t < |SplitOn(indkey, ' ')| && 0 <= i < |cols|
              && cols[i].Position == AtoiOrZero(SplitOn(indkey, ' ')[t]) && cols[i].ColumnName == n
  {
    var tokens := SplitOn(indkey, ' ');
    var ps := KeyPositions(tokens);
    ResolveNamesHas(cols, ps, n);
    var t :| 0 <= t < |ps| && n in NamesAt(cols, ps[t]);
    NamesAtIff(cols, ps[t], n);
    var i :| 0 <= i < |cols| && cols[i].Position == ps[t] && cols[i].ColumnName == n;
    assert 0 <= t < |tokens|;
    assert 0 <= i < |cols|;
    assert cols[i].Position == AtoiOrZero(tokens[t]);
    assert cols[i].ColumnName == n;
  }

  lemma KeyNamesComplete(cols: seq<Column>, indkey: string, t: nat, i: nat)
    requires var tokens := SplitOn(indkey, ' ');
      t < |tokens| && i < |cols| && cols[i].Position == AtoiOrZero(tokens[t])
    ensures cols[i].ColumnName in KeyNames(cols, indkey)
  {
    var tokens := SplitOn(indkey, ' ');
    var ps := KeyPositions(tokens);
    var n := cols[i].ColumnName;
    NamesAtIff(cols, ps[t], n);
    ResolveNamesHas(cols, ps, n);
  }

  /** An index lists a column name exactly when some token's number is the position of a
      column with that name. */
  lemma KeyNamesIff(cols: seq<Column>, indkey: string, n: string)
    ensures var tokens := SplitOn(indkey, ' ');
      n in KeyNames(cols, indkey) <==>
        exists t, i :: 0 <= t < |tokens| && 0 <= i < |cols| && cols[i].Position == AtoiOrZero(tokens[t]) && cols[i].ColumnName == n
  {
    var tokens := SplitOn(indkey, ' ');
    if n in KeyNames(cols, indkey) {
      KeyNamesSound(cols, indkey, n);
    }
    forall t, i | 0 <= t < |tokens| && 0 <= i < |cols| && cols[i].Position == AtoiOrZero(tokens[t])
      ensures cols[i].ColumnName in KeyNames(cols, indkey)
    {
      KeyNamesComplete(cols, indkey, t, i);
    }
  }

  /** A row's index is the panic exactly when the table has columns and its key
      resolves none of them; otherwise it carries the row's name and flags and the
      resolved columns. */
  lemma IndexRecordFacts(r: IndexRow, cols: seq<Column>)
    ensures IndexRecord(r, cols).Err? <==> cols != [] && KeyNames(cols, r.indkey) == []
    ensures IndexRecord(r, cols).Err? ==> IndexRecord(r, cols).message == IndexPanic
    ensures IndexRecord(r, cols).Ok? ==>
              var idx := IndexRecord(r, cols).value;
              && idx.IndexName == r.name
              && idx.ColumnNames == KeyNames(cols, r.indkey)
              && idx.IsPrimaryKey == r.isPrimary
              && idx.IsUnique == r.isUnique
  {
  }

  /** The index scan panics exactly when the table has columns and some row's key
      resolves none of them; otherwise it yields one index per row, in arrival order,
      with the row's flags and resolved columns. */
  lemma IndexesFaultIff(cols: seq<Column>, rows: seq<IndexRow>)
    ensures IndexesOf(cols, rows).Err? <==>
              cols != [] && exists k :: 0 <= k < |rows| && KeyNames(cols, rows[k].indkey) == []
    ensures IndexesOf(cols, rows).Err? ==> IndexesOf(cols, rows).message == IndexPanic
    ensures IndexesOf(cols, rows).Ok? ==>
              var idxs := IndexesOf(cols, rows).value;
              && |idxs| == |rows|
              && forall k :: 0 <= k < |rows| ==>
                   && idxs[k].IndexName == rows[k].name
                   && idxs[k].ColumnNames == KeyNames(cols, rows[k].indkey)
                   && idxs[k].IsPrimaryKey == rows[k].isPrimary
                   && idxs[k].IsUnique == rows[k].isUnique
  {
    var rs := IndexResults(cols, rows);
    CollectOkIff(rs);
    if Collect(rs).Err? {
      CollectFirstFault(rs);
    }
    forall k | 0 <= k < |rows| {
      IndexRecordFacts(rows[k], cols);
    }
  }

  /** Over no columns every key position resolves nothing. */
  lemma {:induction false} NoColumnsNoNames(ps: seq<int>)
    ensures ResolveNames([], ps) == []
  {
    if ps != [] {
      NoColumnsNoNames(ps[..|ps| - 1]);
    }
  }

  /** A table without columns keeps every index, in arrival order, with no column
      names and nothing back-filled: the back-fill loop that would panic never runs. */
  lemma ColumnlessIndexesKept(rows: seq<IndexRow>)
    ensures IndexesOf([], rows).Ok?
    ensures IndexesOf([], rows).value == seq(|rows|, k requires 0 <= k < |rows| => IndexShell(rows[k]))
    ensures BackFilled([], IndexesOf([], rows).value) == []
  {
    var rs := IndexResults([], rows);
    var shells := seq(|rows|, k requires 0 <= k < |rows| => IndexShell(rows[k]));
    forall k | 0 <= k < |rows|
      ensures rs[k] == Ok(shells[k])
    {
      NoColumnsNoNames(KeyPositions(SplitOn(rows[k].indkey, ' ')));
    }
    CollectOkIff(rs);
    assert Collect(rs).value == shells;
  }

  /** One index's back-fill changes a column exactly when the index starts with it. */
  lemma BackFillIndexAt(cols: seq<Column>, idx: Index, j: nat)
    requires j < |cols|
    ensures BackFillIndex(cols, idx)[j] ==
              if Leads(idx, cols[j].ColumnName)
              then cols[j].(IsPrimaryKey := idx.IsPrimaryKey, CanFilter := true)
              else cols[j]
  {
  }

  /** A column with its two back-filled flags cleared: what the back-fill keeps. */
  function Unflagged(c: Column): Column {
    c.(IsPrimaryKey := false, CanFilter := false)
  }

  /** After the back-fill a column differs from before in its key flag and `CanFilter`
      only; a column no index starts with is untouched; any index starting with it makes
      it filterable; and the last such index decides its key flag, so a later
      non-primary index clears it. */
  lemma {:induction false} BackFilledLastWins(cols: seq<Column>, idxs: seq<Index>, j: nat)
    requires j < |cols|
    ensures var out := BackFilled(cols, idxs)[j];
      var name := cols[j].ColumnName;
      && Unflagged(out) == Unflagged(cols[j])
      && ((forall k :: 0 <= k < |idxs| ==> !Leads(idxs[k], name)) ==> out == cols[j])
      && (forall k :: 0 <= k < |idxs| && Leads(idxs[k], name) ==> out.CanFilter)
      && (forall k :: 0 <= k < |idxs| && Leads(idxs[k], name)
                      && (forall l :: k < l < |idxs| ==> !Leads(idxs[l], name)) ==>
                        out.IsPrimaryKey == idxs[k].IsPrimaryKey)
  {
    if idxs != [] {
      var init := idxs[..|idxs| - 1];
      var last := idxs[|idxs| - 1];
      var name := cols[j].ColumnName;
      assert forall k :: 0 <= k < |init| ==> init[k] == idxs[k];
      BackFilledLastWins(cols, init, j);
      BackFilledShape(cols, init);
      var prev := BackFilled(cols, init)[j];
      var out := BackFilled(cols, idxs)[j];
      assert prev.ColumnName == name;
      BackFillIndexAt(BackFilled(cols, init), last, j);
      if Leads(last, name) {
        assert Unflagged(out) == Unflagged(prev);
      }
    }
  }

  /** Back-filling touches only the primary-key and filter flags, so columns whose
      optional values agree with their presence flags keep agreeing. */
  lemma BackFilledKeepsFlags(cols: seq<Column>, idxs: seq<Index>)
    requires forall c :: c in cols ==> c.WellFormed() && c.Dereferenceable()
    ensures forall c :: c in BackFilled(cols, idxs) ==> c.WellFormed() && c.Dereferenceable()
  {
    var out := BackFilled(cols, idxs);
    BackFilledShape(cols, idxs);
    forall i | 0 <= i < |out|
      ensures out[i].WellFormed() && out[i].Dereferenceable()
    {
      BackFilledLastWins(cols, idxs, i);
      assert cols[i] in cols;
      assert Unflagged(out[i]) == Unflagged(cols[i]);
    }
  }

  /** A successful index scan of a table with columns lists at least one column for
      every index. */
  lemma IndexesResolved(cols: seq<Column>, rows: seq<IndexRow>)
    requires IndexesOf(cols, rows).Ok? && cols != []
    ensures Resolved(IndexesOf(cols, rows).value)
  {
    IndexesFaultIff(cols, rows);
  }

  // ---------------------------------------------------------------- code imports

  /** The imports after requiring `required`: appended only when absent. */
  function WithImport(imports: seq<string>, required: string): (r: seq<string>)
    ensures imports <= r && required in r && |r| <= |imports| + 1
  {
    if required in imports then imports else imports + [required]
  }

  /** `addCodeImport`: looks for the import and appends it only when it is absent. */
  method AddCodeImport(table: Table, required: string) returns (t: Table)
    ensures t == table.(CodeImports := WithImport(table.CodeImports, required))
  {
    for i := 0 to |table.CodeImports|
      invariant required !in table.CodeImports[..i]
    {
      if table.CodeImports[i] == required {
        return table;
      }
    }
    assert table.CodeImports[..|table.CodeImports|] == table.CodeImports;
    t := table.(CodeImports := table.CodeImports + [required]);
  }

  /** Requiring an import keeps the list free of duplicates, adds exactly that import,
      and requiring it again changes nothing. */
  lemma WithImportFacts(imports: seq<string>, required: string)
    requires Distinct(imports)
    ensures var r := WithImport(imports, required);
      && Distinct(r)
      && (forall x :: x in r <==> x in imports || x == required)
      && r[..|imports|] == imports
      && WithImport(r, required) == r
  {
  }

  // ---------------------------------------------------------------- one table

  /** The catalog rows of one table or view: its row of the tables query and the rows of
      the column, constraint and index queries for it. */
  datatype TableScan = TableScan(
    row: TableRow,
    columns: seq<ColumnRow>,
    constraints: seq<ConstraintRow>,
    indexes: seq<IndexRow>)

  /** Every catalog name the scan of a table names is one `toJsonName` accepts. */
  predicate ScanNameable(scan: TableScan) {
    && Nameable(scan.row.tableName)
    && ColumnRowsNameable(scan.columns)
    && ConstraintRowsNameable(scan.constraints)
    && IndexRowsNameable(scan.indexes)
  }

  /** Some filterable column holds a `*time.Time`. */
  predicate NeedsTime(cols: seq<Column>) {
    exists i :: 0 <= i < |cols| && cols[i].CanFilter && cols[i].DataType == "*time.Time"
  }

  lemma NeedsTimeSnoc(cols: seq<Column>, i: nat)
    requires i < |cols|
    ensures NeedsTime(cols[..i + 1]) <==> NeedsTime(cols[..i]) || (cols[i].CanFilter && cols[i].DataType == "*time.Time")
  {
    assert forall j :: 0 <= j < i ==> cols[..i + 1][j] == cols[..i][j];
    assert cols[..i + 1][i] == cols[i];
  }

  predicate IsView(row: TableRow) {
    Upper(row.tableType) == "VIEW"
  }

  /** The table literal of one row of the tables query, before its indexes are scanned.
      The plural names are left empty: pluralisation is not part of this model. */
  function TableLiteral(schemaName: string, row: TableRow, columns: seq<Column>, constraints: seq<Constraint>): Table {
    Table(
      SchemaName := schemaName,
      TableName := row.tableName,
      CodeName := ProperName(row.tableName, false),
      DisplayName := ProperName(row.tableName, true),
      DisplayNamePlural := "",
      JsonName := JsonNameOf(row.tableName),
      SlugName := ToSlug(row.tableName),
      SlugNamePlural := "",
      Owner := schemaName,
      Comment := TrimSpace(row.comment.GetOr("")),
      TableType := row.tableType,
      IsUpdatable := Lower(row.canInsert) == "yes",
      Columns := columns,
      Constraints := constraints,
      Indexes := [],
      CodeImports := [])
  }

  /** The table a scan yields (the loop body of `scanTablesAndViews`): the columns in
      arrival order, the constraints folded by name, the indexes with their key columns
      back-filled, and the `time` import when a filterable column needs it. A refused
      column type or a key that resolves no column stops the scan. */
  function TableOf(schemaName: string, scan: TableScan): Result<Table> {
    var columns := ColumnsOf(scan.columns, IsView(scan.row));
    if columns.Err? then Err(columns.message)
    else
      var indexes := IndexesOf(columns.value, scan.indexes);
      if indexes.Err? then Err(indexes.message)
      else Ok(Assembled(schemaName, scan.row, columns.value, ReferenceConstraints(scan.constraints), indexes.value))
  }

  /** The table of a successful scan: the literal with the back-filled columns, the
      indexes, and the `time` import when a filterable column needs it. */
  function Assembled(schemaName: string, row: TableRow, columns: seq<Column>, constraints: seq<Constraint>,
                     indexes: seq<Index>): Table
  {
    var cols := BackFilled(columns, indexes);
    var indexed := TableLiteral(schemaName, row, columns, constraints).(Columns := cols, Indexes := indexes);
    if NeedsTime(cols) then indexed.(CodeImports := WithImport([], "time")) else indexed
  }

  /** `table.Indexes = s.scanIndexes(db, table)`: the table's columns go into storage
      that the index scan back-fills in place, and the table then holds the back-filled
      columns and the indexes. */
  method IndexTable(table: Table, rows: seq<IndexRow>) returns (result: Result<Table>)
    requires IndexRowsNameable(rows)
    ensures var indexes := IndexesOf(table.Columns, rows);
      && (indexes.Err? ==> result == Err(indexes.message))
      && (indexes.Ok? ==>
            && (table.Columns != [] ==> Resolved(indexes.value))
            && result == Ok(table.(Columns := BackFilled(table.Columns, indexes.value), Indexes := indexes.value)))
  {
    var shared := new Column[|table.Columns|](i requires 0 <= i < |table.Columns| => table.Columns[i]);
    assert shared[..] == table.Columns;
    var indexes := ScanIndexes(shared, rows);
    if indexes.Err? {
      return Err(indexes.message);
    }
    return Ok(table.(Columns := shared[..], Indexes := indexes.value));
  }

  /** The `needsTime` loop of `scanTablesAndViews`: the `time` import is required when
      some filterable column holds a `*time.Time`. */
  method RecordTimeImport(table: Table) returns (t: Table)
    ensures t == if NeedsTime(table.Columns) then table.(CodeImports := WithImport(table.CodeImports, "time")) else table
  {
    var needsTime := false;
    for i := 0 to |table.Columns|
      invariant needsTime <==> NeedsTime(table.Columns[..i])
    {
      var col := table.Columns[i];
      NeedsTimeSnoc(table.Columns, i);
      if col.CanFilter && col.DataType == "*time.Time" {
        needsTime := true;
      }
    }
    assert table.Columns[..|table.Columns|] == table.Columns;
    t := table;
    if needsTime {
      t := AddCodeImport(table, "time");
    }
  }

  /** The loop body of `scanTablesAndViews` for one table. */
  method ScanTable(schemaName: string, scan: TableScan) returns (result: Result<Table>)
    requires ScanNameable(scan)
    ensures result == TableOf(schemaName, scan)
  {
    var isView := Upper(scan.row.tableType) == "VIEW";
    var columns := ScanColumns(scan.columns, isView);
    if columns.Err? {
      return Err(columns.message);
    }
    var constraints := ScanConstraints(scan.constraints);
    var table := TableLiteral(schemaName, scan.row, columns.value, constraints);
    var indexed := IndexTable(table, scan.indexes);
    if indexed.Err? {
      return Err(indexed.message);
    }
    table := RecordTimeImport(indexed.value);
    return Ok(table);
  }

  /** A scanned table is what the DDL emitter needs: its columns arrive in catalog order
      and keep their names and positions, every optional value is flagged as present,
      constraints are well formed, the owner is the schema, and the `time` import is
      listed, once, exactly when a filterable column holds a `*time.Time`. */
  lemma TableOfFacts(schemaName: string, scan: TableScan)
    requires TableOf(schemaName, scan).Ok?
    ensures var t := TableOf(schemaName, scan).value;
      && t.Dereferenceable()
      && (forall i :: 0 <= i < |t.Columns| ==> t.Columns[i].WellFormed())
      && |t.Columns| == |scan.columns|
      && (forall i :: 0 <= i < |t.Columns| ==>
            t.Columns[i].ColumnName == scan.columns[i].name && t.Columns[i].Position == scan.columns[i].position)
      && t.SchemaName == schemaName && t.Owner == schemaName
      && (t.IsUpdatable <==> Lower(scan.row.canInsert) == "yes")
      && ("time" in t.CodeImports <==> NeedsTime(t.Columns))
      && Distinct(t.CodeImports)
  {
    var isView := IsView(scan.row);
    var columns := ColumnsOf(scan.columns, isView).value;
    ColumnsInArrivalOrder(scan.columns, isView);
    ScannedColumnsFresh(scan.columns, isView);
    ReferenceConstraintsFaithful(scan.constraints);
    AssembledFacts(schemaName, scan.row, columns, ReferenceConstraints(scan.constraints),
                   IndexesOf(columns, scan.indexes).value);
  }

  lemma AssembledFacts(schemaName: string, row: TableRow, columns: seq<Column>, constraints: seq<Constraint>,
                       indexes: seq<Index>)
    requires forall c :: c in columns ==> c.WellFormed() && c.Dereferenceable()
    requires forall c :: c in constraints ==> c.Dereferenceable()
    ensures var t := Assembled(schemaName, row, columns, constraints, indexes);
      && t.Dereferenceable()
      && (forall i :: 0 <= i < |t.Columns| ==> t.Columns[i].WellFormed())
      && |t.Columns| == |columns|
      && (forall i :: 0 <= i < |t.Columns| ==>
            t.Columns[i].ColumnName == columns[i].ColumnName && t.Columns[i].Position == columns[i].Position)
      && t.SchemaName == schemaName && t.Owner == schemaName
      && (t.IsUpdatable <==> Lower(row.canInsert) == "yes")
      && ("time" in t.CodeImports <==> NeedsTime(t.Columns))
      && Distinct(t.CodeImports)
  {
    var t := Assembled(schemaName, row, columns, constraints, indexes);
    BackFilledShape(columns, indexes);
    BackFilledKeepsFlags(columns, indexes);
    assert t.Columns == BackFilled(columns, indexes);
    assert forall i :: 0 <= i < |t.Columns| ==> t.Columns[i] in t.Columns;
    assert forall i :: 0 <= i < |t.Constraints| ==> t.Constraints[i] in constraints;
  }

  /** The scan of a table fails exactly when a column's catalog type is refused, or when
      the table has columns, they are accepted, and some index key resolves none of
      them. This is the whole story for `Nameable` scans only: the `toJsonName` panic
      on other names is not part of `TableOf`. */
  lemma TableOfFaults(schemaName: string, scan: TableScan)
    ensures TableOf(schemaName, scan).Err? <==>
              || (exists i :: 0 <= i < |scan.columns| && MapPostgresTypeToGo(scan.columns[i].dataType).Err?)
              || (&& scan.columns != []
                  && ColumnsOf(scan.columns, IsView(scan.row)).Ok?
                  && exists k :: 0 <= k < |scan.indexes| &&
                       KeyNames(ColumnsOf(scan.columns, IsView(scan.row)).value, scan.indexes[k].indkey) == [])
  {
    ColumnsInArrivalOrder(scan.columns, IsView(scan.row));
    if ColumnsOf(scan.columns, IsView(scan.row)).Ok? {
      IndexesFaultIff(ColumnsOf(scan.columns, IsView(scan.row)).value, scan.indexes);
    }
  }

  // ---------------------------------------------------------------- the schema

  function TableResults(schemaName: string, scans: seq<TableScan>): (rs: seq<Result<Table>>)
    ensures |rs| == |scans| && forall k :: 0 <= k < |scans| ==> rs[k] == TableOf(schemaName, scans[k])
  {
    seq(|scans|, k requires 0 <= k < |scans| => TableOf(schemaName, scans[k]))
  }

  /** The tables of the schema in the order the tables query returns them, or the first
      failing table's fault. */
  function TablesOf(schemaName: string, scans: seq<TableScan>): Result<seq<Table>> {
    Collect(TableResults(schemaName, scans))
  }

  /** The schema literal `ScanPostgresDatabase` starts from: named after the schema,
      owned by it, with no tables yet. */
  function SchemaLiteral(schemaName: string): Schema {
    Schema(
      SchemaName := schemaName,
      CodeName := ProperName(schemaName, false),
      DisplayName := ProperName(schemaName, true),
      JsonName := JsonNameOf(schemaName),
      SlugName := ToSlug(schemaName),
      Owner := schemaName,
      Tables := [])
  }

  const EmptySchema := Schema("", "", "", "", "", "", [])

  /** The scanner: the schema it fills, the schema's name and the connection string. */
  class Scanner {
    var Schema: Schema
    var SchemaName: string
    var connectionString: string

    /** `NewScanner`: an empty schema and the given names. */
    constructor (connectionString: string, schemaName: string)
      ensures Schema == EmptySchema && SchemaName == schemaName && this.connectionString == connectionString
    {
      Schema := EmptySchema;
      SchemaName := schemaName;
      this.connectionString := connectionString;
    }

    /** `ScanPostgresDatabase`: starts the schema from its literal and scans every table
      into it. Connecting and pinging are not modelled; the catalog rows of each table
      are given. */
    method ScanPostgresDatabase(scans: seq<TableScan>) returns (outcome: Outcome)
      requires Nameable(SchemaName)
      requires forall k :: 0 <= k < |scans| ==> ScanNameable(scans[k])
      modifies this
      ensures SchemaName == old(SchemaName) && connectionString == old(connectionString)
      ensures outcome.Pass? <==> TablesOf(SchemaName, scans).Ok?
      ensures outcome.Fail? ==> outcome.message == TablesOf(SchemaName, scans).message
      ensures outcome.Pass? ==> Schema == SchemaLiteral(SchemaName).(Tables := TablesOf(SchemaName, scans).value)
      ensures Schema.(Tables := []) == SchemaLiteral(SchemaName)
    {
      Schema := SchemaLiteral(SchemaName);
      outcome := ScanTablesAndViews(scans);
    }

    /** `scanTablesAndViews`: appends the scanned table of every row of the tables query
      to the schema, in the query's order; the first failing table stops the run with
      the tables before it appended. */
    method ScanTablesAndViews(scans: seq<TableScan>) returns (outcome: Outcome)
      requires forall k :: 0 <= k < |scans| ==> ScanNameable(scans[k])
      modifies this
      ensures SchemaName == old(SchemaName) && connectionString == old(connectionString)
      ensures Schema.(Tables := old(Schema.Tables)) == old(Schema)
      ensures outcome.Pass? <==> TablesOf(SchemaName, scans).Ok?
      ensures outcome.Fail? ==> outcome.message == TablesOf(SchemaName, scans).message
      ensures outcome.Pass? ==> Schema.Tables == old(Schema.Tables) + TablesOf(SchemaName, scans).value
      ensures outcome.Fail? ==>
                exists n :: 0 <= n < |scans| && TableOf(SchemaName, scans[n]).Err?
                  && Collect(TableResults(SchemaName, scans[..n])).Ok?
                  && Schema.Tables == old(Schema.Tables) + Collect(TableResults(SchemaName, scans[..n])).value
    {
      ghost var rs := TableResults(SchemaName, scans);
      ghost var added: seq<Table> := [];
      assert rs[..0] == [];
      for k := 0 to |scans|
        invariant SchemaName == old(SchemaName) && connectionString == old(connectionString)
        invariant Schema.(Tables := old(Schema.Tables)) == old(Schema)
        invariant Schema.Tables == old(Schema.Tables) + added
        invariant Collect(rs[..k]) == Ok(added)
      {
        var table := ScanTable(SchemaName, scans[k]);
        CollectSnoc(rs, k);
        if table.Err? {
          CollectFaultPersists(rs, k + 1);
          assert TableResults(SchemaName, scans[..k]) == rs[..k];
          return Fail(table.message);
        }
        Schema := Schema.(Tables := Schema.Tables + [table.value]);
        added := added + [table.value];
      }
      assert rs[..|scans|] == rs;
      return Pass;
    }
  }
}
