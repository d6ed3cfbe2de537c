/** The DDL emitter (src/make-sql.go): the DROP / CREATE / ALTER OWNER / COMMENT script
    for one table. None of the emitters changes the table. */
module MakeSql {
  import opened Wrappers
  import opened Text
  import opened Models

  // ---------------------------------------------------------------- one column

  /** A cardinal primary key is declared as an auto-incrementing `BIGSERIAL`. */
  predicate IsBigSerial(c: Column) {
    c.IsPrimaryKey && c.IsCardinal
  }

  /** The `(n)` capacity suffix: written exactly when a positive maximum length is
      recorded, and the number in it reads back as that length. */
  function Capacity(c: Column): (r: string)
    requires c.Dereferenceable()
    ensures r != [] <==> c.HasMaxLen && c.MaxLen.value > 0
    ensures r != [] ==> r[0] == '(' && r[|r| - 1] == ')'
  {
    if c.HasMaxLen && c.MaxLen.value > 0 then "(" + NatToString(c.MaxLen.value) + ")" else ""
  }

  /** The number between the parentheses reads back as the recorded length. */
  lemma CapacityReadsBack(c: Column)
    requires c.Dereferenceable() && c.HasMaxLen && 0 < c.MaxLen.value <= MaxInt64
    ensures var r := Capacity(c); AtoiOrZero(r[1..|r| - 1]) == c.MaxLen.value
  {
    var digits := NatToString(c.MaxLen.value);
    assert Capacity(c)[1..|Capacity(c)| - 1] == digits;
    AtoiOfNatToString(c.MaxLen.value);
  }

  /** The declared type: `BIGSERIAL` for a cardinal primary key whatever its catalog
      type, otherwise the catalog type with its capacity. */
  function ColumnType(c: Column): (r: string)
    requires c.Dereferenceable()
    ensures IsBigSerial(c) ==> r == "BIGSERIAL"
    ensures !IsBigSerial(c) ==> HasPrefix(r, c.SqlType) && (|r| > |c.SqlType| <==> c.HasMaxLen && c.MaxLen.value > 0)
  {
    if IsBigSerial(c) then "BIGSERIAL" else c.SqlType + Capacity(c)
  }

  /** ` NOT NULL`, exactly for a column that is not nullable. */
  function NotNull(c: Column): (r: string)
    ensures r == [] || r == " NOT NULL"
    ensures r != [] <==> !c.IsNullable
  {
    if c.IsNullable then "" else " NOT NULL"
  }

  /** ` DEFAULT d`, exactly for a column with a default that is not a `BIGSERIAL`. */
  function DefaultValue(c: Column): (r: string)
    requires c.Dereferenceable()
    ensures r != [] <==> c.HasDefault && !IsBigSerial(c)
    ensures r != [] ==> r == " DEFAULT " + c.ColumnDefault.value
  {
    if c.HasDefault && !IsBigSerial(c) then " DEFAULT " + c.ColumnDefault.value else ""
  }

  /** `getColumnSQL`: the indented name, two spaces, then type, nullability and
      default. */
  function ColumnSql(c: Column): string
    requires c.Dereferenceable()
  {
    var nullable := NotNull(c);
    var defVal := DefaultValue(c);
    ColumnLead(c) + (ColumnType(c) + nullable + defVal)
  }

  function ColumnLead(c: Column): string {
    "    " + c.ColumnName + "  "
  }

  /** A column clause opens with its indented name; a cardinal primary key is a
      `BIGSERIAL` with at most a `NOT NULL` after it, never a default. */
  lemma ColumnSqlShape(c: Column)
    requires c.Dereferenceable()
    ensures HasPrefix(ColumnSql(c), "    " + c.ColumnName + "  ")
    ensures IsBigSerial(c) ==> ColumnSql(c) == "    " + c.ColumnName + "  " + ("BIGSERIAL" + NotNull(c))
  {
    var lead := ColumnLead(c);
    var tail := ColumnType(c) + NotNull(c) + DefaultValue(c);
    assert (lead + tail)[..|lead|] == lead;
  }

  function ColumnClauses(t: Table): (r: seq<string>)
    requires t.Dereferenceable()
    ensures |r| == |t.Columns|
  {
    seq(|t.Columns|, k requires 0 <= k < |t.Columns| => ColumnSql(t.Columns[k]))
  }

  // ---------------------------------------------------------------- constraints

  function ReferencesClause(schemaName: string, c: Constraint): string
    requires c.Dereferenceable()
  {
    if c.IsForeignKey then
      "\n        REFERENCES " + schemaName + "." + c.ForeignTable.value + " (" + c.ForeignColumn.value + ") MATCH SIMPLE "
      + "\n        ON UPDATE NO ACTION ON DELETE NO ACTION"
    else ""
  }

  /** The head every constraint clause opens with. */
  function ConstraintHead(c: Constraint): string {
    ",\n    CONSTRAINT " + c.ConstraintName + " " + c.ConstraintType + " (" + Join(c.ColumnNames, ", ") + ")"
  }

  /** One constraint clause. */
  function ConstraintClause(schemaName: string, c: Constraint): string
    requires c.Dereferenceable()
  {
    ConstraintHead(c) + ReferencesClause(schemaName, c)
  }

  /** A constraint clause opens with its head (name, kind, and its column names joined by
      `, ` in stored order), and has a `REFERENCES` tail exactly for a foreign key. */
  lemma ConstraintClauseShape(schemaName: string, c: Constraint)
    requires c.Dereferenceable()
    ensures var r := ConstraintClause(schemaName, c);
            && HasPrefix(r, ConstraintHead(c))
            && (|r| > |ConstraintHead(c)| <==> c.IsForeignKey)
            && (c.IsForeignKey ==> HasPrefix(r[|ConstraintHead(c)|..], "\n        REFERENCES " + schemaName + "." + c.ForeignTable.value + " ("))
  {
  }

  function ConstraintClauses(t: Table): (r: seq<string>)
    requires t.Dereferenceable()
    ensures |r| == |t.Constraints|
    ensures forall k :: 0 <= k < |r| ==> r[k] == ConstraintClause(t.SchemaName, t.Constraints[k])
  {
    seq(|t.Constraints|, k requires 0 <= k < |t.Constraints| => ConstraintClause(t.SchemaName, t.Constraints[k]))
  }

  /** `getConstraintSQL`: the constraint clauses in stored order. */
  method GetConstraintSql(t: Table) returns (txt: string)
    requires t.Dereferenceable()
    ensures txt == Concat(ConstraintClauses(t))
  {
    if |t.Constraints| == 0 {
      return "";
    }
    txt := "";
    ghost var clauses := ConstraintClauses(t);
    for i := 0 to |t.Constraints|
      invariant txt == Concat(clauses[..i])
    {
      var c := t.Constraints[i];
      var item := ConstraintHead(c);
      if c.IsForeignKey {
        item := item + ReferencesClause(t.SchemaName, c);
      }
      assert item == clauses[i];
      PrefixSnoc(clauses, i);
      ConcatSnoc(clauses[..i], item);
      txt := txt + item;
    }
    assert clauses[..|t.Constraints|] == clauses;
  }

  /** No constraints add nothing, and any constraint adds text. */
  lemma {:induction false} ConstraintSqlEmptyIff(t: Table)
    requires t.Dereferenceable()
    ensures Concat(ConstraintClauses(t)) == [] <==> t.Constraints == []
  {
    var cs := ConstraintClauses(t);
    if cs != [] {
      var last := cs[|cs| - 1];
      assert cs == cs[..|cs| - 1] + [last];
      ConcatSnoc(cs[..|cs| - 1], last);
      ConstraintClauseShape(t.SchemaName, t.Constraints[|cs| - 1]);
    }
  }

  // ---------------------------------------------------------------- comments

  /** The `COMMENT ON TABLE` statement, with every quote of the comment doubled. */
  function TableCommentSql(t: Table): (r: string)
    ensures r != [] <==> |t.Comment| > 0
  {
    if |t.Comment| > 0 then
      "COMMENT ON TABLE " + t.SchemaName + "." + t.TableName + " IS '" + DoubleQuotes(t.Comment) + "';\n"
    else ""
  }

  function ColumnCommentSql(t: Table, c: Column): string {
    "COMMENT ON COLUMN " + t.SchemaName + "." + t.TableName + "." + c.ColumnName + " IS '" + DoubleQuotes(c.Comment) + "';\n"
  }

  /** The `COMMENT ON COLUMN` statements of the columns at the given positions. */
  function ColumnCommentItems(t: Table, ix: seq<nat>): (r: seq<string>)
    requires forall k :: 0 <= k < |ix| ==> ix[k] < |t.Columns|
    ensures |r| == |ix|
  {
    seq(|ix|, k requires 0 <= k < |ix| => ColumnCommentSql(t, t.Columns[ix[k]]))
  }

  lemma ColumnCommentItemsSnoc(t: Table, ix: seq<nat>, i: nat)
    requires forall k :: 0 <= k < |ix| ==> ix[k] < |t.Columns|
    requires i < |t.Columns|
    ensures ColumnCommentItems(t, ix + [i]) == ColumnCommentItems(t, ix) + [ColumnCommentSql(t, t.Columns[i])]
  {
  }

  /** The comment statements: the table's, then one per commented column in stored order. */
  function CommentsSql(t: Table): string {
    TableCommentSql(t) + Concat(ColumnCommentItems(t, Positions(t.Columns, IsCommented)))
  }

  /** `getCommentsSQL`. */
  method GetCommentsSql(t: Table) returns (txt: string)
    ensures txt == CommentsSql(t)
  {
    var cols := t.Columns;
    txt := "";
    if |t.Comment| > 0 {
      txt := TableCommentSql(t);
    }
    var columnComments := "";
    for i := 0 to |cols|
      invariant columnComments == Concat(ColumnCommentItems(t, Positions(cols[..i], IsCommented)))
    {
      PositionsStep(cols, IsCommented, i);
      if IsCommented(cols[i]) {
        var item := ColumnCommentSql(t, cols[i]);
        ghost var ix := Positions(cols[..i], IsCommented);
        ColumnCommentItemsSnoc(t, ix, i);
        ConcatSnoc(ColumnCommentItems(t, ix), item);
        columnComments := columnComments + item;
      } else {
        assert Positions(cols[..i + 1], IsCommented) == Positions(cols[..i], IsCommented);
      }
    }
    assert cols[..|cols|] == cols;
    txt := txt + columnComments;
  }

  /** The literal in a comment statement reads back as the comment: every quote in it is
      doubled, so it cannot close the literal early, and un-doubling restores the text. */
  lemma TableCommentRoundTrip(t: Table)
    requires |t.Comment| > 0
    ensures var head := "COMMENT ON TABLE " + t.SchemaName + "." + t.TableName + " IS '";
            var r := TableCommentSql(t);
            && HasPrefix(r, head)
            && r[|r| - 3..] == "';\n"
            && QuotesPaired(r[|head|..|r| - 3])
            && Undouble(r[|head|..|r| - 3]) == t.Comment
  {
    var head := "COMMENT ON TABLE " + t.SchemaName + "." + t.TableName + " IS '";
    var r := TableCommentSql(t);
    assert r[|head|..|r| - 3] == DoubleQuotes(t.Comment);
    UndoubleDoubleQuotes(t.Comment);
    DoubleQuotesPaired(t.Comment);
  }

  /** The same for a column comment statement. */
  lemma ColumnCommentRoundTrip(t: Table, c: Column)
    ensures var head := "COMMENT ON COLUMN " + t.SchemaName + "." + t.TableName + "." + c.ColumnName + " IS '";
            var r := ColumnCommentSql(t, c);
            && HasPrefix(r, head)
            && r[|r| - 3..] == "';\n"
            && QuotesPaired(r[|head|..|r| - 3])
            && Undouble(r[|head|..|r| - 3]) == c.Comment
  {
    var head := "COMMENT ON COLUMN " + t.SchemaName + "." + t.TableName + "." + c.ColumnName + " IS '";
    var r := ColumnCommentSql(t, c);
    assert r[|head|..|r| - 3] == DoubleQuotes(c.Comment);
    UndoubleDoubleQuotes(c.Comment);
    DoubleQuotesPaired(c.Comment);
  }

  /** One column comment statement per commented column, in stored order: the k-th
      statement belongs to the k-th commented column. */
  lemma ColumnCommentsExact(t: Table)
    ensures var ix := Positions(t.Columns, IsCommented);
            && Increasing(ix)
            && (forall i :: 0 <= i < |t.Columns| ==> (i in ix <==> |t.Columns[i].Comment| > 0))
            && forall k :: 0 <= k < |ix| ==>
                 ColumnCommentItems(t, ix)[k] == ColumnCommentSql(t, t.Columns[ix[k]])
  {
    PositionsExact(t.Columns, IsCommented);
  }

  // ---------------------------------------------------------------- the whole script

  /** The three formatted statements of the script. */
  function DropStatement(t: Table): string {
    "DROP TABLE " + t.SchemaName + "." + t.TableName + " CASCADE;\n"
  }

  function CreateStatement(t: Table): string {
    "CREATE TABLE IF NOT EXISTS " + t.SchemaName + "." + t.TableName + " (\n"
  }

  function AlterOwnerStatement(t: Table): string {
    "ALTER TABLE " + t.SchemaName + "." + t.TableName + " OWNER TO " + t.Owner + ";\n"
  }

  function Header(t: Table): string {
    "\n" + DropStatement(t) + "\n" + CreateStatement(t)
  }

  /** The script of a table: nothing for a table without columns; otherwise DROP, the
      CREATE with its column clauses joined by `,\n` and its constraint clauses, the
      ALTER OWNER, and the comment statements, in that order. */
  function TableSql(t: Table): string
    requires t.Dereferenceable()
  {
    if t.Columns == [] then ""
    else Script(t, Join(ColumnClauses(t), ",\n"), Concat(ConstraintClauses(t)), CommentsSql(t))
  }

  /** The script around the given column, constraint and comment texts. */
  function Script(t: Table, columns: string, constraints: string, comments: string): string {
    Header(t) + columns + constraints + "\n);\n\n" + AlterOwnerStatement(t) + comments
  }

  /** `Table.GetTableSQL`. */
  method GetTableSql(t: Table) returns (txt: string)
    requires t.Dereferenceable()
    ensures txt == TableSql(t)
  {
    if |t.Columns| == 0 {
      return "";
    }
    txt := "\n";
    txt := txt + DropStatement(t);
    txt := txt + "\n";
    txt := txt + CreateStatement(t);
    var first := true;
    ghost var clauses := ColumnClauses(t);
    ghost var columns := "";
    for i := 0 to |t.Columns|
      invariant first <==> i == 0
      invariant columns == Join(clauses[..i], ",\n")
      invariant txt == Header(t) + columns
    {
      var clause := ColumnSql(t.Columns[i]);
      assert clause == clauses[i];
      PrefixSnoc(clauses, i);
      if !first {
        JoinSnoc(clauses[..i], clause, ",\n");
        AppendAssoc(Header(t), columns, ",\n");
        txt := txt + ",\n";
        columns := columns + ",\n";
      }
      first := false;
      AppendAssoc(Header(t), columns, clause);
      txt := txt + clause;
      columns := columns + clause;
    }
    assert clauses[..|t.Columns|] == clauses;
    var constraints := GetConstraintSql(t);
    txt := txt + constraints;
    txt := txt + "\n);\n\n";
    txt := txt + AlterOwnerStatement(t);
    var comments := GetCommentsSql(t);
    txt := txt + comments;
    assert columns == Join(ColumnClauses(t), ",\n");
  }

  /** The script is empty exactly for a table without columns; otherwise it opens with
      the DROP statement. */
  lemma TableSqlShape(t: Table)
    requires t.Dereferenceable()
    ensures TableSql(t) == [] <==> t.Columns == []
    ensures t.Columns != [] ==> HasPrefix(TableSql(t), Header(t))
  {
    if t.Columns != [] {
      var h := Header(t);
      var columns, constraints := Join(ColumnClauses(t), ",\n"), Concat(ConstraintClauses(t));
      assert HasPrefix(h, h);
      PrefixExtends(h, columns, h);
      PrefixExtends(h + columns, constraints, h);
      PrefixExtends(h + columns + constraints, "\n);\n\n", h);
      PrefixExtends(h + columns + constraints + "\n);\n\n", AlterOwnerStatement(t), h);
      PrefixExtends(h + columns + constraints + "\n);\n\n" + AlterOwnerStatement(t), CommentsSql(t), h);
    }
  }
}
