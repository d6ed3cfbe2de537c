/** The two schema-wide guards of a run: a schema without tables stops the run before
    anything is written, and the entities step stops at the first table without a
    primary-key column. */
module Generator {
  import opened Wrappers
  import opened Models

  const NoTables := "no tables were found."

  /** The guard after scanning (`main`): an empty schema is fatal. */
  function TablesFound(schema: Schema): (o: Outcome)
    ensures o.Pass? <==> |schema.Tables| > 0
    ensures o.Fail? ==> o.message == NoTables
  {
    if |schema.Tables| == 0 then Fail(NoTables) else Pass
  }

  /** The message `createEntities` stops with: `<schema>.<table> has no primary key`. */
  function NoPrimaryKey(schemaName: string, tableName: string): string {
    schemaName + "." + tableName + " has no primary key"
  }

  /** `createEntities`' guard: every table, in order, must have a column flagged as a
      primary key; the first table without one stops the run with its name. Writing
      each entity file is not modelled. */
  method CheckPrimaryKeys(schema: Schema) returns (outcome: Outcome)
    ensures outcome.Pass? <==> forall i :: 0 <= i < |schema.Tables| ==> schema.Tables[i].HasPrimaryKey()
    ensures outcome.Fail? ==>
              exists i :: 0 <= i < |schema.Tables|
                && !schema.Tables[i].HasPrimaryKey()
                && (forall j :: 0 <= j < i ==> schema.Tables[j].HasPrimaryKey())
                && outcome.message == NoPrimaryKey(schema.SchemaName, schema.Tables[i].TableName)
  {
    for i := 0 to |schema.Tables|
      invariant forall j :: 0 <= j < i ==> schema.Tables[j].HasPrimaryKey()
    {
      var table := schema.Tables[i];
      var hasPrimary := false;
      for k := 0 to |table.Columns|
        invariant hasPrimary <==> exists c :: 0 <= c < k && table.Columns[c].IsPrimaryKey
      {
        if table.Columns[k].IsPrimaryKey {
          hasPrimary := true;
        }
      }
      if !hasPrimary {
        return Fail(NoPrimaryKey(schema.SchemaName, table.TableName));
      }
    }
    return Pass;
  }
}
