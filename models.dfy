/** The intermediate representation the scanner builds from the Postgres catalog and
    every emitter reads (src/models.go). Go's optional `*int` and `*string` fields are
    `Option`s; nil and empty slices are both the empty sequence. */
module Models {
  import opened Wrappers

  datatype Column = Column(
    Position: int,
    ColumnName: string,
    CodeName: string,
    DisplayName: string,
    JsonName: string,
    SlugName: string,
    Comment: string,
    IsPrimaryKey: bool,
    IsNullable: bool,
    IsCardinal: bool,
    HasMaxLen: bool,
    HasDefault: bool,
    HasPrecision: bool,
    CanFilter: bool,
    SqlType: string,
    DataType: string,
    MaxLen: Option<int>,
    ColumnDefault: Option<string>,
    NumericPrecision: Option<int>)
  {
    /** The flags say which optional values are present, as the scanner records them;
        the emitters dereference an optional value only when its flag is set. */
    predicate WellFormed() {
      && HasMaxLen == MaxLen.Some?
      && HasDefault == ColumnDefault.Some?
      && HasPrecision == NumericPrecision.Some?
    }

    /** What dereferencing code needs: a set flag has its value. */
    predicate Dereferenceable() {
      && (HasMaxLen ==> MaxLen.Some?)
      && (HasDefault ==> ColumnDefault.Some?)
    }
  }

  datatype Constraint = Constraint(
    ConstraintName: string,
    CodeName: string,
    DisplayName: string,
    JsonName: string,
    SlugName: string,
    IsPrimaryKey: bool,
    IsForeignKey: bool,
    IsUniqueKey: bool,
    ColumnNames: seq<string>,
    ConstraintType: string,
    ForeignTable: Option<string>,
    ForeignColumn: Option<string>)
  {
    /** A foreign key knows what it references; nothing else does. */
    predicate WellFormed() {
      && ForeignTable.Some? == IsForeignKey
      && ForeignColumn.Some? == IsForeignKey
    }

    predicate Dereferenceable() {
      IsForeignKey ==> ForeignTable.Some? && ForeignColumn.Some?
    }
  }

  datatype Index = Index(
    IndexName: string,
    CodeName: string,
    DisplayName: string,
    JsonName: string,
    SlugName: string,
    ColumnNames: seq<string>,
    IsPrimaryKey: bool,
    IsUnique: bool)

  datatype Table = Table(
    SchemaName: string,
    TableName: string,
    CodeName: string,
    DisplayName: string,
    DisplayNamePlural: string,
    JsonName: string,
    SlugName: string,
    SlugNamePlural: string,
    Owner: string,
    Comment: string,
    TableType: string,
    IsUpdatable: bool,
    Columns: seq<Column>,
    Constraints: seq<Constraint>,
    Indexes: seq<Index>,
    CodeImports: seq<string>)
  {
    /** Everything the DDL emitter dereferences is present. */
    predicate Dereferenceable() {
      && (forall i :: 0 <= i < |Columns| ==> Columns[i].Dereferenceable())
      && (forall i :: 0 <= i < |Constraints| ==> Constraints[i].Dereferenceable())
    }

    predicate HasPrimaryKey() {
      exists i :: 0 <= i < |Columns| && Columns[i].IsPrimaryKey
    }
  }

  datatype Schema = Schema(
    SchemaName: string,
    CodeName: string,
    DisplayName: string,
    JsonName: string,
    SlugName: string,
    Owner: string,
    Tables: seq<Table>)

  predicate IsKey(c: Column) { c.IsPrimaryKey }
  predicate IsNonKey(c: Column) { !c.IsPrimaryKey }
  predicate IsCommented(c: Column) { |c.Comment| > 0 }

  /** The positions of the columns satisfying `p`, in stored order: what a `for _, col
      := range Columns` loop guarded by `p(col)` visits. */
  function Positions(cols: seq<Column>, p: Column -> bool): (r: seq<nat>)
    ensures forall k :: 0 <= k < |r| ==> r[k] < |cols|
  {
    if cols == [] then []
    else Positions(cols[..|cols| - 1], p) + (if p(cols[|cols| - 1]) then [|cols| - 1] else [])
  }

  lemma PositionsStep(cols: seq<Column>, p: Column -> bool, i: nat)
    requires i < |cols|
    ensures Positions(cols[..i + 1], p) == Positions(cols[..i], p) + (if p(cols[i]) then [i] else [])
  {
    assert cols[..i + 1][..i] == cols[..i];
  }

  predicate Increasing(ix: seq<nat>) {
    forall j, k :: 0 <= j < k < |ix| ==> ix[j] < ix[k]
  }

  /** `Positions` lists exactly the positions of the columns satisfying `p`, each once and
      in stored order. */
  lemma {:induction false} PositionsExact(cols: seq<Column>, p: Column -> bool)
    ensures Increasing(Positions(cols, p))
    ensures forall i :: 0 <= i < |cols| ==> (i in Positions(cols, p) <==> p(cols[i]))
  {
    if cols != [] {
      var init := cols[..|cols| - 1];
      PositionsExact(init, p);
      assert forall i :: 0 <= i < |init| ==> init[i] == cols[i];
    }
  }

  /** Every column is either a primary key or not: the two position lists share out
      all columns. */
  lemma {:induction false} KeyPositionsCount(cols: seq<Column>)
    ensures |Positions(cols, IsNonKey)| + |Positions(cols, IsKey)| == |cols|
  {
    if cols != [] {
      KeyPositionsCount(cols[..|cols| - 1]);
    }
  }
}
