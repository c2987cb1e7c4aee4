/** The ahead-of-time generator: from a table definition it emits C# source whose string
    literals are SQL statements. This module gives the SQL text each emitted literal denotes
    (for the `Truncate`/`Drop` interpolations, the text for a given `cascade`). */
module Generator {
  import opened Wrappers
  import opened Text
  import opened PowerSet
  import opened TableDefinition

  function QuoteAll(names: seq<string>): (r: seq<string>)
    ensures |r| == |names|
    ensures forall i :: 0 <= i < |names| ==> r[i] == Quote(names[i])
  {
    seq(|names|, i requires 0 <= i < |names| => Quote(names[i]))
  }

  /** The generator writes a quoted list as one quote pair around the names joined by `", "`;
      for a non-empty list that is the list of quoted names joined by ", ". */
  lemma {:induction false} QuotedListIsListOfQuoted(names: seq<string>)
    requires |names| > 0
    ensures Quote(Join("\", \"", names)) == Join(", ", QuoteAll(names))
    decreases |names|
  {
    if |names| > 1 {
      QuotedListIsListOfQuoted(names[1..]);
      assert QuoteAll(names)[1..] == QuoteAll(names[1..]);
    }
  }

  /** `"c" = @slot`: a column compared with (or set to) one positional parameter. */
  datatype Assignment = Assignment(column: string, slot: nat)

  function Render(a: Assignment): string {
    Quote(a.column) + " = " + Placeholder(a.slot)
  }

  function RenderAll(assignments: seq<Assignment>): (r: seq<string>)
    ensures |r| == |assignments|
    ensures forall i :: 0 <= i < |r| ==> r[i] == Render(assignments[i])
  {
    seq(|assignments|, i requires 0 <= i < |assignments| => Render(assignments[i]))
  }

  // ---------------------------------------------------------------- CREATE TABLE

  /** `"name" type` for one column. */
  function ColumnDefinition(c: Column): string {
    Quote(c.name) + " " + c.sqlTypeName
  }

  function ColumnDefinitions(cols: seq<Column>): (r: seq<string>)
    ensures |r| == |cols|
    ensures forall i :: 0 <= i < |cols| ==> r[i] == ColumnDefinition(cols[i])
  {
    seq(|cols|, i requires 0 <= i < |cols| => ColumnDefinition(cols[i]))
  }

  function PrimaryKeyClause(td: TableDef): string {
    "PRIMARY KEY(" + Quote(Join("\", \"", Names(PrimaryKeys(td)))) + ")"
  }

  function UniqueClause(cols: seq<Column>): string {
    "UNIQUE(" + Quote(Join("\", \"", Names(cols))) + ")"
  }

  /** `SQLToAdd`: one UNIQUE clause per unique-key map, in map order, then the raw SQL lines. */
  function ExtraClauses(uniqueKeys: seq<seq<Column>>, sqlLines: seq<string>): (r: seq<string>)
    ensures |r| == |uniqueKeys| + |sqlLines|
    ensures forall i :: 0 <= i < |uniqueKeys| ==> r[i] == UniqueClause(uniqueKeys[i])
    ensures forall i :: 0 <= i < |sqlLines| ==> r[|uniqueKeys| + i] == sqlLines[i]
  {
    seq(|uniqueKeys|, i requires 0 <= i < |uniqueKeys| => UniqueClause(uniqueKeys[i])) + sqlLines
  }

  function TrimAll(lines: seq<string>): (r: seq<string>)
    ensures |r| == |lines|
    ensures forall i :: 0 <= i < |lines| ==> r[i] == Trim(lines[i])
  {
    seq(|lines|, i requires 0 <= i < |lines| => Trim(lines[i]))
  }

  /** The emitted clause pieces — each column definition followed by ", ", the key clause
      followed by ", ", each extra clause but the last followed by ", ", the last followed by
      " " — are the ", "-joined clause list and a closing space. */
  lemma {:induction false} ClauseTextIsJoin(defs: seq<string>, key: string, lines: seq<string>, sep: string, close: string)
    requires |lines| > 0
    ensures TerminatedText(defs, sep) + (key + sep)
            + (TerminatedText(lines[..|lines| - 1], sep) + lines[|lines| - 1] + close)
            == Join(sep, defs + [key] + lines) + close
  {
    var init, last := lines[..|lines| - 1], lines[|lines| - 1];
    TerminatedTextSnoc(defs, sep, key);
    var front := TerminatedText(defs + [key], sep);
    assert TerminatedText(defs, sep) + key + sep == front;
    TerminatedThenJoin(init, sep, [last]);
    assert init + [last] == lines;
    assert TerminatedText(init, sep) + last == Join(sep, lines);
    TerminatedThenJoin(defs + [key], sep, lines);
  }

  /** The CREATE TABLE statement as a list of clauses: every column definition, the primary
      key, then each extra clause trimmed, separated by ", "; a single space before the close
      when there is any extra clause. */
  function CreateTableLayout(td: TableDef, extra: seq<string>): string {
    "CREATE TABLE IF NOT EXISTS " + Quote(td.tableName) + " ("
    + (Join(", ", ColumnDefinitions(td.columns) + [PrimaryKeyClause(td)] + TrimAll(extra))
       + (if |extra| > 0 then " " else ""))
    + ");"
  }

  /** The column lines of `CreateDB`: each column definition followed by ", ". */
  method EmitColumnDefinitions(cols: seq<Column>) returns (text: string)
    ensures text == TerminatedText(ColumnDefinitions(cols), ", ")
  {
    var defs := ColumnDefinitions(cols);
    text := "";
    var i := 0;
    while i < |cols|
      invariant 0 <= i <= |cols|
      invariant text == TerminatedText(defs[..i], ", ")
    {
      assert defs[..i + 1] == defs[..i] + [defs[i]];
      TerminatedTextSnoc(defs[..i], ", ", defs[i]);
      text := text + ColumnDefinition(cols[i]) + ", ";
      i := i + 1;
    }
    assert defs[..i] == defs;
  }

  /** Each item followed by ", ", one after another. */
  method EmitTerminated(items: seq<string>) returns (text: string)
    ensures text == TerminatedText(items, ", ")
  {
    text := "";
    var j := 0;
    while j < |items|
      invariant 0 <= j <= |items|
      invariant text == TerminatedText(items[..j], ", ")
    {
      assert items[..j + 1] == items[..j] + [items[j]];
      TerminatedTextSnoc(items[..j], ", ", items[j]);
      text := text + items[j] + ", ";
      j := j + 1;
    }
    assert items[..j] == items;
  }

  /** The extra-clause lines of `CreateDB`: each clause trimmed and followed by ", ", except
      the last, which is followed by " ". */
  method EmitExtraClauses(toAdd: seq<string>) returns (text: string)
    ensures |toAdd| == 0 ==> text == ""
    ensures |toAdd| > 0 ==>
              text == TerminatedText(TrimAll(toAdd)[..|toAdd| - 1], ", ") + Trim(toAdd[|toAdd| - 1]) + " "
  {
    if |toAdd| == 0 {
      return "";
    }
    var front := EmitTerminated(TrimAll(toAdd)[..|toAdd| - 1]);
    text := front + Trim(toAdd[|toAdd| - 1]) + " ";
  }

  /** `CreateDB`: the text is assembled line by line as the generator emits it. It throws
      when a unique-key map holds an index outside the column list. */
  method CreateDB(td: TableDef) returns (r: Result<string, Exception>)
    ensures UniqueKeys(td).Failure? ==> r == Failure(IndexOutOfRangeException)
    ensures UniqueKeys(td).Success? ==>
              r == Success(CreateTableLayout(td, ExtraClauses(UniqueKeys(td).value, td.sqlLines)))
  {
    var uniqueKeys := UniqueKeys(td);
    if uniqueKeys.Failure? {
      return Failure(IndexOutOfRangeException);
    }
    var toAdd := ExtraClauses(uniqueKeys.value, td.sqlLines);
    var extraLines := |toAdd| != 0;
    var head := "CREATE TABLE IF NOT EXISTS " + Quote(td.tableName) + " (";
    var columnText := EmitColumnDefinitions(td.columns);
    var key := PrimaryKeyClause(td);
    var keyText := key + (if extraLines then ", " else "");
    var lineText := EmitExtraClauses(toAdd);
    var defs, trimmed := ColumnDefinitions(td.columns), TrimAll(toAdd);
    var closing := if extraLines then " " else "";
    var body := columnText + keyText + lineText;
    assert body == Join(", ", defs + [key] + trimmed) + closing by {
      if extraLines {
        ClauseTextIsJoin(defs, key, trimmed, ", ", " ");
      } else {
        TerminatedThenJoin(defs, ", ", [key]);
        assert defs + [key] + trimmed == defs + [key];
      }
    }
    r := Success(head + body + ");");
  }

  // ---------------------------------------------------------------- keyed select and delete

  /** The subset columns, picked by position from the primary keys. */
  function Pick(keys: seq<Column>, subset: seq<nat>): (r: seq<Column>)
    requires forall i :: 0 <= i < |subset| ==> subset[i] < |keys|
    ensures |r| == |subset|
    ensures forall i :: 0 <= i < |subset| ==> r[i] == keys[subset[i]]
  {
    seq(|subset|, i requires 0 <= i < |subset| => keys[subset[i]])
  }

  /** The keyed WHERE condition: argument `i` compared with parameter `@i`, joined by " AND ". */
  function KeyCondition(names: seq<string>): string {
    Join(" AND ", RenderAll(seq(|names|, i requires 0 <= i < |names| => Assignment(names[i], i))))
  }

  datatype KeyedSelect = KeyedSelect(name: string, singleResult: bool, sql: string, arguments: seq<string>)

  datatype KeyedDelete = KeyedDelete(name: string, sql: string, arguments: seq<string>)

  /** `SelectHelper`: one `SelectBy_...` accessor; `unique` marks the single-record form. */
  function SelectHelper(tableName: string, unique: bool, cols: seq<Column>): KeyedSelect {
    KeyedSelect(
      "SelectBy_" + Join("_", Names(cols)),
      unique,
      "SELECT * FROM " + Quote(tableName) + " WHERE " + KeyCondition(Names(cols)) + ";",
      Names(cols))
  }

  /** `DeleteHelper`: one `DeleteBy_...` accessor. */
  function DeleteHelper(tableName: string, cols: seq<Column>): KeyedDelete {
    KeyedDelete(
      "DeleteBy_" + Join("_", Names(cols)),
      "DELETE FROM " + Quote(tableName) + " WHERE " + KeyCondition(Names(cols)) + ";",
      Names(cols))
  }

  predicate SubsetsWithin(subsets: seq<seq<nat>>, k: nat) {
    forall j, i :: 0 <= j < |subsets| && 0 <= i < |subsets[j]| ==> subsets[j][i] < k
  }

  /** One keyed select per subset, marked single-result when it has as many columns as there are keys. */
  function SelectsFor(tableName: string, keys: seq<Column>, subsets: seq<seq<nat>>): (r: seq<KeyedSelect>)
    requires SubsetsWithin(subsets, |keys|)
    ensures |r| == |subsets|
    ensures forall j :: 0 <= j < |subsets| ==>
              r[j] == SelectHelper(tableName, |subsets[j]| == |keys|, Pick(keys, subsets[j]))
  {
    seq(|subsets|, j requires 0 <= j < |subsets| =>
      SelectHelper(tableName, |subsets[j]| == |keys|, Pick(keys, subsets[j])))
  }

  function DeletesFor(tableName: string, keys: seq<Column>, subsets: seq<seq<nat>>): (r: seq<KeyedDelete>)
    requires SubsetsWithin(subsets, |keys|)
    ensures |r| == |subsets|
    ensures forall j :: 0 <= j < |subsets| ==> r[j] == DeleteHelper(tableName, Pick(keys, subsets[j]))
  {
    seq(|subsets|, j requires 0 <= j < |subsets| => DeleteHelper(tableName, Pick(keys, subsets[j])))
  }

  /** The keyed selects, one per non-empty subset of the primary keys in pattern order. */
  function Select(td: TableDef): Result<seq<KeyedSelect>, Exception> {
    var keys := PrimaryKeys(td);
    var subsets :- EnumerateAsWritten(|keys|);
    Success(SelectsFor(td.tableName, keys, subsets))
  }

  /** The keyed deletes, one per non-empty subset of the primary keys in pattern order. */
  function Delete(td: TableDef): Result<seq<KeyedDelete>, Exception> {
    var keys := PrimaryKeys(td);
    var subsets :- EnumerateAsWritten(|keys|);
    Success(DeletesFor(td.tableName, keys, subsets))
  }

  /** `SELECT * FROM "T";` */
  function SelectAllSql(tableName: string): string {
    "SELECT * FROM " + Quote(tableName) + ";"
  }

  /** The caller's query between `WHERE ` and ` ;` (the generated code leaves a space before the semicolon). */
  function SelectWhereSql(tableName: string, query: string): string {
    "SELECT * FROM " + Quote(tableName) + " WHERE " + query + " ;"
  }

  /** The conditional select is the select-all statement with ` WHERE <query>` and a stray
      space inserted before its semicolon; the query is copied verbatim. */
  lemma SelectWhereExtendsSelectAll(tableName: string, query: string)
    ensures SelectAllSql(tableName) == "SELECT * FROM \"" + tableName + "\";"
    ensures var all := SelectAllSql(tableName);
            SelectWhereSql(tableName, query) == all[..|all| - 1] + " WHERE " + query + " ;"
  {
    var all := SelectAllSql(tableName);
    assert all[..|all| - 1] == "SELECT * FROM " + Quote(tableName);
  }

  // ---------------------------------------------------------------- table management

  function CascadeSuffix(cascade: bool): string {
    if cascade then " CASCADE" else ""
  }

  function TruncateSql(tableName: string, cascade: bool): string {
    "TRUNCATE " + Quote(tableName) + CascadeSuffix(cascade) + ";"
  }

  function DropSql(tableName: string, cascade: bool): string {
    "DROP TABLE IF EXISTS " + Quote(tableName) + CascadeSuffix(cascade) + ";"
  }

  /** `cascade` only inserts " CASCADE" before the closing semicolon; the rest is fixed text. */
  lemma CascadeOnlyAddsKeyword(tableName: string)
    ensures TruncateSql(tableName, false) == "TRUNCATE \"" + tableName + "\";"
    ensures DropSql(tableName, false) == "DROP TABLE IF EXISTS \"" + tableName + "\";"
    ensures TruncateSql(tableName, true) ==
              TruncateSql(tableName, false)[..|TruncateSql(tableName, false)| - 1] + " CASCADE;"
    ensures DropSql(tableName, true) ==
              DropSql(tableName, false)[..|DropSql(tableName, false)| - 1] + " CASCADE;"
  {
    var t := TruncateSql(tableName, false);
    assert t[..|t| - 1] == "TRUNCATE " + Quote(tableName);
    var d := DropSql(tableName, false);
    assert d[..|d| - 1] == "DROP TABLE IF EXISTS " + Quote(tableName);
  }

  // ---------------------------------------------------------------- insert, update, upsert

  predicate DistinctNames(cols: seq<Column>) {
    forall i, j :: 0 <= i < j < |cols| ==> cols[i].name != cols[j].name
  }

  /** The names of `cols`. */
  function NameSet(cols: seq<Column>): set<string> {
    set i | 0 <= i < |cols| :: cols[i].name
  }

  /** `CN`: column name to parameter index, built with `Dictionary.Add`, which throws on a
      name seen before (with the message of current .NET, which names the key). */
  function PlaceholderMap(cols: seq<Column>): (r: Result<map<string, nat>, Exception>)
    ensures r.Success? <==> DistinctNames(cols)
    ensures r.Failure? ==> r.error.ArgumentException?
    ensures r.Success? ==> r.value.Keys == NameSet(cols)
    ensures r.Success? ==> forall i :: 0 <= i < |cols| ==> cols[i].name in r.value && r.value[cols[i].name] == i
    decreases |cols|
  {
    if |cols| == 0 then Success(map[])
    else
      var init := cols[..|cols| - 1];
      var last := cols[|cols| - 1].name;
      DistinctNamesSnoc(cols);
      match PlaceholderMap(init)
      case Failure(e) => Failure(e)
      case Success(cn) =>
        if last in cn then Failure(ArgumentException("An item with the same key has already been added. Key: " + last))
        else
          MapSnoc(cols, cn);
          Success(cn[last := |cols| - 1])
  }

  /** A column list is free of duplicates when all but its last column are and the last name
      is not among the others; the others are exactly the names of that prefix. */
  lemma DistinctNamesSnoc(cols: seq<Column>)
    requires |cols| > 0
    ensures var init := cols[..|cols| - 1];
            && (DistinctNames(cols) <==> DistinctNames(init) && cols[|cols| - 1].name !in NameSet(init))
            && NameSet(cols) == NameSet(init) + {cols[|cols| - 1].name}
  {
    var init, last := cols[..|cols| - 1], cols[|cols| - 1].name;
    assert forall i :: 0 <= i < |init| ==> init[i] == cols[i];
    if last in NameSet(init) {
      var i :| 0 <= i < |init| && init[i].name == last;
      assert cols[i].name == cols[|cols| - 1].name;
    }
    forall x | x in NameSet(cols)
      ensures x in NameSet(init) + {last}
    {
      var i :| 0 <= i < |cols| && cols[i].name == x;
      if i < |init| {
        assert init[i].name == x;
      }
    }
  }

  /** Adding the last column to the map of the others maps every column to its index. */
  lemma MapSnoc(cols: seq<Column>, cn: map<string, nat>)
    requires |cols| > 0
    requires var init := cols[..|cols| - 1];
             forall i :: 0 <= i < |init| ==> init[i].name in cn && cn[init[i].name] == i
    requires DistinctNames(cols)
    ensures var r := cn[cols[|cols| - 1].name := |cols| - 1];
            forall i :: 0 <= i < |cols| ==> cols[i].name in r && r[cols[i].name] == i
  {
    var init := cols[..|cols| - 1];
    assert forall i :: 0 <= i < |init| ==> init[i] == cols[i];
  }

  /** Each column of `cols` assigned the parameter the map gives its name. */
  function MapAssignments(cn: map<string, nat>, cols: seq<Column>): (r: seq<Assignment>)
    requires forall i :: 0 <= i < |cols| ==> cols[i].name in cn
    ensures |r| == |cols|
    ensures forall i :: 0 <= i < |cols| ==> r[i] == Assignment(cols[i].name, cn[cols[i].name])
  {
    seq(|cols|, i requires 0 <= i < |cols| => Assignment(cols[i].name, cn[cols[i].name]))
  }

  /** The three whole-row statements of a record: the SET list, the WHERE list and the
      conflict target are kept alongside the text they are rendered into. */
  datatype RowStatements = RowStatements(
    insert: string,
    update: string,
    upsert: string,
    setAssignments: seq<Assignment>,
    whereAssignments: seq<Assignment>,
    conflictKeys: seq<string>)

  /** `INSERT INTO "T" ("c0", "c1", ...) VALUES(@0, @1, ...)`, shared by insert and upsert. */
  function InsertHead(td: TableDef): string {
    "INSERT INTO " + Quote(td.tableName) + " (" + Quote(Join("\", \"", Names(td.columns))) + ") "
    + "VALUES(" + Join(", ", Placeholders(|td.columns|)) + ")"
  }

  /** `UPDATE "T" SET <set list> WHERE <key condition>;` */
  function UpdateSql(tableName: string, set1: seq<Assignment>, where1: seq<Assignment>): string {
    "UPDATE " + Quote(tableName) + " SET " + Join(", ", RenderAll(set1))
    + " WHERE " + Join(" AND ", RenderAll(where1)) + ";"
  }

  /** The insert head, then `ON CONFLICT (<keys>) DO UPDATE SET <set list>;` */
  function UpsertSql(head: string, conflictKeys: seq<string>, set1: seq<Assignment>): string {
    head + (" ON CONFLICT (" + Join(", ", conflictKeys) + ") DO UPDATE SET " + Join(", ", RenderAll(set1)) + ";")
  }

  predicate MapsEveryColumn(cn: map<string, nat>, cols: seq<Column>) {
    forall i :: 0 <= i < |cols| ==> cols[i].name in cn
  }

  /** The row statements once the name-to-parameter map exists. */
  function RowStatementsFrom(td: TableDef, cn: map<string, nat>): RowStatements
    requires MapsEveryColumn(cn, td.columns)
  {
    assert forall i :: 0 <= i < |DataColumns(td)| ==> DataColumns(td)[i] == td.columns[KeyCount(td) + i];
    var set1 := MapAssignments(cn, DataColumns(td));
    var where1 := MapAssignments(cn, PrimaryKeys(td));
    var conflictKeys := QuoteAll(Names(PrimaryKeys(td)));
    RowStatements(
      InsertHead(td) + ";",
      UpdateSql(td.tableName, set1, where1),
      UpsertSql(InsertHead(td), conflictKeys, set1),
      set1,
      where1,
      conflictKeys)
  }

  /** `IDBSetFunctions`: the Insert, Update and Upsert statements; building the name-to-parameter
      map throws first when two columns share a name. */
  function IDBSetFunctions(td: TableDef): Result<RowStatements, Exception> {
    var cn :- PlaceholderMap(td.columns);
    Success(RowStatementsFrom(td, cn))
  }

  // ---------------------------------------------------------------- lemmas

  /** Up to 30 primary keys, the accessors are built from the key subsets. */
  lemma AccessorsFromKeySubsets(td: TableDef)
    requires |PrimaryKeys(td)| <= 30
    ensures SubsetsWithin(KeySubsets(|PrimaryKeys(td)|), |PrimaryKeys(td)|)
    ensures Select(td) == Success(SelectsFor(td.tableName, PrimaryKeys(td), KeySubsets(|PrimaryKeys(td)|)))
    ensures Delete(td) == Success(DeletesFor(td.tableName, PrimaryKeys(td), KeySubsets(|PrimaryKeys(td)|)))
  {
    AsWrittenAgrees(|PrimaryKeys(td)|);
  }

  /** Up to 30 primary keys, there are 2^k - 1 keyed selects and as many keyed deletes. */
  lemma AccessorCount(td: TableDef)
    requires |PrimaryKeys(td)| <= 30
    ensures Select(td).Success? && |Select(td).value| == Pow2(|PrimaryKeys(td)|) - 1
    ensures Delete(td).Success? && |Delete(td).value| == Pow2(|PrimaryKeys(td)|) - 1
  {
    AccessorsFromKeySubsets(td);
    KeySubsetsArePatterns(|PrimaryKeys(td)|);
  }

  /** Accessor `j` is built from key subset `j`. */
  lemma AccessorAt(td: TableDef, j: nat)
    requires |PrimaryKeys(td)| <= 30
    requires j < Pow2(|PrimaryKeys(td)|) - 1
    ensures j < |KeySubsets(|PrimaryKeys(td)|)|
    ensures SubsetsWithin(KeySubsets(|PrimaryKeys(td)|), |PrimaryKeys(td)|)
    ensures Select(td).Success? && j < |Select(td).value|
    ensures Delete(td).Success? && j < |Delete(td).value|
    ensures var subset := KeySubsets(|PrimaryKeys(td)|)[j];
            var cols := Pick(PrimaryKeys(td), subset);
            && Select(td).value[j] == SelectHelper(td.tableName, |subset| == |PrimaryKeys(td)|, cols)
            && Delete(td).value[j] == DeleteHelper(td.tableName, cols)
  {
    AccessorsFromKeySubsets(td);
    KeySubsetsArePatterns(|PrimaryKeys(td)|);
  }

  /** Keyed select `j` and keyed delete `j` cover the same key subset, listed in ascending key
      position, and share the name suffix, the arguments and the WHERE condition. */
  lemma SelectDeleteShareCondition(td: TableDef, j: nat)
    requires |PrimaryKeys(td)| <= 30
    requires j < Pow2(|PrimaryKeys(td)|) - 1
    ensures j < |KeySubsets(|PrimaryKeys(td)|)|
    ensures Select(td).Success? && Delete(td).Success?
    ensures j < |Select(td).value| && j < |Delete(td).value|
    ensures var s, d, subset := Select(td).value[j], Delete(td).value[j], KeySubsets(|PrimaryKeys(td)|)[j];
            && StrictlyAscending(subset)
            && s.arguments == d.arguments
            && |s.arguments| == |subset|
            && (forall i :: 0 <= i < |subset| ==>
                  subset[i] < |PrimaryKeys(td)| && s.arguments[i] == PrimaryKeys(td)[subset[i]].name)
            && s.name == "SelectBy_" + Join("_", s.arguments)
            && d.name == "DeleteBy_" + Join("_", s.arguments)
            && s.sql == "SELECT * FROM " + Quote(td.tableName) + " WHERE " + KeyCondition(s.arguments) + ";"
            && d.sql == "DELETE FROM " + Quote(td.tableName) + " WHERE " + KeyCondition(s.arguments) + ";"
  {
    var k := |PrimaryKeys(td)|;
    AccessorAt(td, j);
    KeySubsetsWellFormed(k, KeySubsets(k)[j]);
  }

  /** A keyed select returns a single record exactly when its subset is the whole primary key,
      in which case its arguments are all the key columns in order. */
  lemma SingleResultIffFullKey(td: TableDef, j: nat)
    requires |PrimaryKeys(td)| <= 30
    requires j < Pow2(|PrimaryKeys(td)|) - 1
    ensures j < |KeySubsets(|PrimaryKeys(td)|)|
    ensures Select(td).Success? && j < |Select(td).value|
    ensures Select(td).value[j].singleResult <==> KeySubsets(|PrimaryKeys(td)|)[j] == Range(|PrimaryKeys(td)|)
    ensures Select(td).value[j].singleResult ==> Select(td).value[j].arguments == Names(PrimaryKeys(td))
  {
    var k := |PrimaryKeys(td)|;
    AccessorAt(td, j);
    var subset := KeySubsets(k)[j];
    KeySubsetsWellFormed(k, subset);
    FullSubsetIffAllKeys(k, subset);
    if subset == Range(k) {
      assert Pick(PrimaryKeys(td), Range(k)) == PrimaryKeys(td);
    }
  }

  /** With distinct column names the row statements are built from the map that sends each
      column to its own index. */
  lemma RowStatementsExist(td: TableDef)
    requires DistinctNames(td.columns)
    ensures PlaceholderMap(td.columns).Success?
    ensures MapsEveryColumn(PlaceholderMap(td.columns).value, td.columns)
    ensures IDBSetFunctions(td) == Success(RowStatementsFrom(td, PlaceholderMap(td.columns).value))
  {
  }

  /** With distinct column names, column `i` always gets `@i`: the SET list is exactly the data
      columns with their own indices, the WHERE list exactly the key columns. */
  lemma AssignmentsUseOwnIndex(td: TableDef)
    requires DistinctNames(td.columns)
    ensures IDBSetFunctions(td).Success?
    ensures var rs := IDBSetFunctions(td).value;
            NumberedFrom(td.columns, KeyCount(td), rs.setAssignments, rs.whereAssignments)
  {
    RowStatementsExist(td);
    var cn := PlaceholderMap(td.columns).value;
    var rs := IDBSetFunctions(td).value;
    assert rs.setAssignments == MapAssignments(cn, DataColumns(td));
    assert rs.whereAssignments == MapAssignments(cn, PrimaryKeys(td));
    NumberedByMap(td, cn);
  }

  /** A map sending every column to its index numbers the SET and WHERE lists by index. */
  lemma NumberedByMap(td: TableDef, cn: map<string, nat>)
    requires forall i :: 0 <= i < |td.columns| ==> td.columns[i].name in cn && cn[td.columns[i].name] == i
    ensures NumberedFrom(td.columns, KeyCount(td), MapAssignments(cn, DataColumns(td)), MapAssignments(cn, PrimaryKeys(td)))
  {
    var k := KeyCount(td);
    var set1 := MapAssignments(cn, DataColumns(td));
    forall i | 0 <= i < |set1|
      ensures set1[i] == Assignment(td.columns[k + i].name, k + i)
    {
      assert DataColumns(td)[i] == td.columns[k + i];
    }
  }

  /** `set1` assigns the columns from `k` on and `where1` the columns below `k`, in order, each
      from the parameter with its own index. */
  predicate NumberedFrom(cols: seq<Column>, k: nat, set1: seq<Assignment>, where1: seq<Assignment>) {
    && k <= |cols| && |set1| == |cols| - k && |where1| == k
    && (forall i :: 0 <= i < |set1| ==> set1[i] == Assignment(cols[k + i].name, k + i))
    && (forall j :: 0 <= j < |where1| ==> where1[j] == Assignment(cols[j].name, j))
  }

  /** `"c" = @i` for the columns `lo .. hi-1`, each with its own index. */
  function ColumnSlots(cols: seq<Column>, lo: nat, hi: nat): (r: seq<string>)
    requires lo <= hi <= |cols|
    ensures |r| == hi - lo
  {
    seq(hi - lo, i requires 0 <= i < hi - lo => Quote(cols[lo + i].name) + " = @" + NatToString(lo + i))
  }

  /** With distinct column names the update is
      `UPDATE "T" SET "c_k" = @k, ..., "c_n-1" = @n-1 WHERE "c_0" = @0 AND ... AND "c_k-1" = @k-1;`:
      the data columns are set and the key columns compared, each with its own index. */
  lemma UpdateRendersAssignments(td: TableDef)
    requires DistinctNames(td.columns)
    ensures IDBSetFunctions(td).Success?
    ensures var cols, k := td.columns, KeyCount(td);
            IDBSetFunctions(td).value.update
            == "UPDATE " + Quote(td.tableName) + " SET " + Join(", ", ColumnSlots(cols, k, |cols|))
               + " WHERE " + Join(" AND ", ColumnSlots(cols, 0, k)) + ";"
  {
    UpdateFromLists(td);
    AssignmentsUseOwnIndex(td);
    var rs := IDBSetFunctions(td).value;
    UpdateText(td.tableName, td.columns, KeyCount(td), rs.setAssignments, rs.whereAssignments);
  }

  /** The update is rendered from the record's SET and WHERE lists. */
  lemma UpdateFromLists(td: TableDef)
    requires DistinctNames(td.columns)
    ensures IDBSetFunctions(td).Success?
    ensures var rs := IDBSetFunctions(td).value;
            rs.update == UpdateSql(td.tableName, rs.setAssignments, rs.whereAssignments)
  {
    RowStatementsExist(td);
  }

  /** Index-numbered SET and WHERE lists render as the column slots. */
  lemma UpdateText(tableName: string, cols: seq<Column>, k: nat, set1: seq<Assignment>, where1: seq<Assignment>)
    requires NumberedFrom(cols, k, set1, where1)
    ensures UpdateSql(tableName, set1, where1)
            == "UPDATE " + Quote(tableName) + " SET " + Join(", ", ColumnSlots(cols, k, |cols|))
               + " WHERE " + Join(" AND ", ColumnSlots(cols, 0, k)) + ";"
  {
    RenderNumbered(cols, k, |cols|, set1);
    RenderNumbered(cols, 0, k, where1);
  }

  /** Assignments numbered by their own column index render as the column slots. */
  lemma RenderNumbered(cols: seq<Column>, lo: nat, hi: nat, xs: seq<Assignment>)
    requires lo <= hi <= |cols| && |xs| == hi - lo
    requires forall i :: 0 <= i < |xs| ==> xs[i] == Assignment(cols[lo + i].name, lo + i)
    ensures RenderAll(xs) == ColumnSlots(cols, lo, hi)
  {
    forall i | 0 <= i < |xs|
      ensures RenderAll(xs)[i] == ColumnSlots(cols, lo, hi)[i]
    {
      assert Int32ToString(lo + i) == NatToString(lo + i);
    }
  }

  /** The SET list and the WHERE list of the update never share a column or a parameter. */
  lemma UpdateSetAndWhereSplit(td: TableDef)
    requires DistinctNames(td.columns)
    ensures IDBSetFunctions(td).Success?
    ensures var rs := IDBSetFunctions(td).value;
            ShareNothing(rs.setAssignments, rs.whereAssignments)
  {
    AssignmentsUseOwnIndex(td);
    var rs := IDBSetFunctions(td).value;
    SlotsSplitAt(td.columns, KeyCount(td), rs.setAssignments, rs.whereAssignments);
  }

  /** No column and no parameter slot of `xs` occurs in `ys`. */
  predicate ShareNothing(xs: seq<Assignment>, ys: seq<Assignment>) {
    forall a, b :: a in xs && b in ys ==> a.slot != b.slot && a.column != b.column
  }

  /** Columns from `k` on, against columns below `k`, each with its own index. */
  lemma SlotsSplitAt(cols: seq<Column>, k: nat, set1: seq<Assignment>, where1: seq<Assignment>)
    requires DistinctNames(cols)
    requires NumberedFrom(cols, k, set1, where1)
    ensures ShareNothing(set1, where1)
  {
    forall a, b | a in set1 && b in where1
      ensures a.slot != b.slot && a.column != b.column
    {
      var i :| 0 <= i < |set1| && set1[i] == a;
      var j :| 0 <= j < |where1| && where1[j] == b;
      assert j < k + i;
    }
  }

  /** Insert is the shared head and a semicolon, with no conflict clause; upsert is the insert
      without its semicolon, followed by a conflict target of exactly the quoted primary-key
      names, in order, and the same SET list the update uses. */
  lemma InsertAndUpsertShareHead(td: TableDef)
    requires DistinctNames(td.columns)
    ensures IDBSetFunctions(td).Success?
    ensures var rs := IDBSetFunctions(td).value;
            var n := |rs.insert| - 1;
            && n >= 0
            && rs.insert[n..] == ";"
            && n <= |rs.upsert|
            && rs.upsert[..n] == rs.insert[..n]
            && rs.conflictKeys == QuoteAll(Names(PrimaryKeys(td)))
            && rs.upsert[n..] == " ON CONFLICT (" + Join(", ", rs.conflictKeys) + ") DO UPDATE SET "
                                 + Join(", ", RenderAll(rs.setAssignments)) + ";"
  {
    RowStatementsExist(td);
    var rs := IDBSetFunctions(td).value;
    var head := InsertHead(td);
    assert rs.insert == head + ";";
    assert rs.insert[..|head|] == head;
  }

  /** Both whole-row statements list every column, and the VALUES list is `@0, @1, ...` in
      column order, so the parameter at index `i` fills column `i`. */
  lemma InsertListsEveryColumn(td: TableDef)
    requires |td.columns| > 0
    ensures InsertHead(td) == "INSERT INTO " + Quote(td.tableName) + " (" + Join(", ", QuoteAll(Names(td.columns)))
                              + ") VALUES(" + Join(", ", Placeholders(|td.columns|)) + ")"
  {
    QuotedListIsListOfQuoted(Names(td.columns));
  }

  /** Duplicate column names make the generator throw instead of emitting the row statements. */
  lemma DuplicateNamesThrow(td: TableDef)
    requires !DistinctNames(td.columns)
    ensures IDBSetFunctions(td).Failure?
  {
  }
}
