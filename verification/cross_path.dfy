/** The two ways the library turns a table into SQL, set side by side: the generator works from
    a table definition and quotes names itself, the runtime works from a record type and lets
    the dialect escape them. Where both describe the same table they still differ, and the
    lemmas here say exactly how. */
module CrossPath {
  import opened Text
  import TableDefinition
  import Generator
  import SqlRecord

  /** A record type and a table definition describe the same table: the definition's table is
      named after the record type (the name the runtime uses), with the same column names in
      the same order and the same primary-key count. */
  predicate SameTable(rec: SqlRecord.Record, td: TableDefinition.TableDef) {
    && td.tableName == rec.typeName
    && |td.columns| == |rec.parameters|
    && (forall i :: 0 <= i < |td.columns| ==> td.columns[i].name == rec.parameters[i].name)
    && td.primaryKeyCount == rec.attribute.primaryKeys
  }

  /** The dialect escapes the table name and every column name the way the generator quotes
      them (true of any escape that only adds the surrounding quotes when there is nothing to
      double inside). */
  predicate EscapesLikeGenerator(d: SqlRecord.Dialect, rec: SqlRecord.Record, td: TableDefinition.TableDef) {
    && d.escape(td.tableName) == Quote(td.tableName)
    && forall i :: 0 <= i < |rec.parameters| ==> d.escape(rec.parameters[i].name) == Quote(rec.parameters[i].name)
  }

  /** Escaped names from the runtime are the generator's quoted names. */
  lemma EscapedNamesAgree(d: SqlRecord.Dialect, ps: seq<SqlRecord.Param>, cols: seq<TableDefinition.Column>)
    requires |ps| == |cols|
    requires forall i :: 0 <= i < |cols| ==> cols[i].name == ps[i].name
    requires forall i :: 0 <= i < |ps| ==> d.escape(ps[i].name) == Quote(ps[i].name)
    ensures SqlRecord.EscapedNameList(d, ps) == Generator.QuoteAll(TableDefinition.Names(cols))
  {
  }

  /** The runtime's `INSERT INTO ... VALUES(...) ` is the generator's, followed by a space. */
  lemma InsertHeadsAgree(d: SqlRecord.Dialect, rec: SqlRecord.Record, td: TableDefinition.TableDef)
    requires SameTable(rec, td) && EscapesLikeGenerator(d, rec, td)
    requires |td.columns| > 0
    ensures SqlRecord.InsertHeadText(d, rec) == Generator.InsertHead(td) + " "
  {
    var names := TableDefinition.Names(td.columns);
    EscapedNamesAgree(d, rec.parameters, td.columns);
    Generator.QuotedListIsListOfQuoted(names);
    assert SqlRecord.TableName(d, rec) == Quote(td.tableName);
    assert SqlRecord.EscapedNames(d, rec.parameters) == Quote(Join("\", \"", names));
  }

  /** The runtime's conflict target is the generator's list of quoted key columns. */
  lemma KeyNamesAgree(d: SqlRecord.Dialect, rec: SqlRecord.Record, td: TableDefinition.TableDef)
    requires SameTable(rec, td) && EscapesLikeGenerator(d, rec, td)
    ensures SqlRecord.EscapedNames(d, SqlRecord.PKs(rec))
            == Join(", ", Generator.QuoteAll(TableDefinition.Names(TableDefinition.PrimaryKeys(td))))
  {
    assert SqlRecord.KeyCount(rec) == TableDefinition.KeyCount(td);
    EscapedNamesAgree(d, SqlRecord.PKs(rec), TableDefinition.PrimaryKeys(td));
  }

  /** The generator's INSERT is the head and a `;`, with no conflict clause. */
  lemma GeneratorInsertIsPlain(td: TableDefinition.TableDef)
    requires Generator.DistinctNames(td.columns)
    ensures Generator.IDBSetFunctions(td).Success?
    ensures Generator.IDBSetFunctions(td).value.insert == Generator.InsertHead(td) + ";"
  {
    Generator.RowStatementsExist(td);
  }

  /** Both paths describing one table with at least one column: the runtime INSERT is the
      generator's INSERT with an `ON CONFLICT(<keys>) DO NOTHING` clause where the generator
      has only the terminating `;`. A duplicate key is silently skipped at runtime and an
      error through the generated code. */
  lemma RuntimeInsertAddsConflictClause(d: SqlRecord.Dialect, rec: SqlRecord.Record, td: TableDefinition.TableDef)
    requires SameTable(rec, td) && EscapesLikeGenerator(d, rec, td)
    requires |td.columns| > 0
    ensures SqlRecord.InsertSql(d, rec)
            == Generator.InsertHead(td) + " ON CONFLICT("
               + Join(", ", Generator.QuoteAll(TableDefinition.Names(TableDefinition.PrimaryKeys(td))))
               + ") DO NOTHING;"
  {
    InsertHeadsAgree(d, rec, td);
    KeyNamesAgree(d, rec, td);
    SpaceMovesIntoClause(
      SqlRecord.InsertHeadText(d, rec), Generator.InsertHead(td),
      SqlRecord.EscapedNames(d, SqlRecord.PKs(rec)),
      Join(", ", Generator.QuoteAll(TableDefinition.Names(TableDefinition.PrimaryKeys(td)))));
  }

  lemma SpaceMovesIntoClause(runtimeHead: string, head: string, runtimeKeys: string, keys: string)
    requires runtimeHead == head + " " && runtimeKeys == keys
    ensures runtimeHead + "ON CONFLICT(" + runtimeKeys + ") DO NOTHING;"
            == head + " ON CONFLICT(" + keys + ") DO NOTHING;"
  {
    var sp, on := " ", "ON CONFLICT(";
    assert sp + on == " ON CONFLICT(";
    calc {
      runtimeHead + on + keys + ") DO NOTHING;";
      head + sp + on + keys + ") DO NOTHING;";
      head + (sp + on) + keys + ") DO NOTHING;";
    }
  }

  /** The generator's quoting does not double an embedded quote, so two different key lists
      produce the same UNIQUE clause: columns `a` and `b` read the same as one column named
      `a", "b`. */
  lemma GeneratorQuotingCollides(t1: string, t2: string, t3: string)
    ensures var two := [TableDefinition.Column("a", t1, t1), TableDefinition.Column("b", t2, t2)];
            var one := [TableDefinition.Column("a\", \"b", t3, t3)];
            two != one && Generator.UniqueClause(two) == Generator.UniqueClause(one)
  {
    var two := [TableDefinition.Column("a", t1, t1), TableDefinition.Column("b", t2, t2)];
    var one := [TableDefinition.Column("a\", \"b", t3, t3)];
    assert TableDefinition.Names(two) == ["a", "b"];
    assert TableDefinition.Names(one) == ["a\", \"b"];
    assert Join("\", \"", ["a", "b"]) == "a" + "\", \"" + "b";
  }
}
