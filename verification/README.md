# SQL text generation of CommonStructureLibrary, modelled in Dafny

CommonStructureLibrary (CSL) maps C# records to database tables in two ways:

- **Ahead of time.** `TableDefinition` reads a small table-definition text: metadata, columns, unique keys and raw SQL lines. From it the generator writes a C# record whose static and instance methods carry literal SQL. That SQL covers `CREATE TABLE`, keyed `SelectBy_…` / `DeleteBy_…` accessors for every non-empty subset of the primary key, `TRUNCATE`/`DROP`, and row-wise `INSERT`/`UPDATE`/`UPSERT`.
- **At run time.** `SQLRecord<T>` reflects over a record's primary-constructor parameters and their attributes (`[SQLRecord(n)]`, `[Unique]`, `[Check]`, `[FK]`). From them it builds the same kinds of statement. The table is always named after the record type: the `[TableName]` override is read too early to take effect (see Findings).

The PostgreSQL back end contributes three things:

- how `Connect` splits a `host:port` server string;
- the statement `SetSchema` sends;
- `ConvertToFriendlyParameter`, which makes boxed values acceptable to the driver.

The model turns each of these into pure Dafny functions over strings and sequences. Errors the C# code throws become `Result` failures of the same exception kind. The model keeps the message where the library writes one itself, and for `Dictionary.Add` the message of current .NET. The framework's index and range errors carry no message in the model. Each operation is paired with lemmas about what the produced text means, for example:

- which placeholder fills which column;
- which key subsets the accessors cover;
- that splitting a server string gives back its host and port;
- that the two paths agree, and where they do not.

Modules, one per file:

| module | file | models |
|---|---|---|
| `Wrappers` | wrappers.dfy | `Option`, `Result`, the exception kinds |
| `Text` | text.dfy | `string.Join`, `Split(char)`, `Trim`, ASCII `ToLower`, `int.ToString` and `int.TryParse`, `Take`/`Skip` counts |
| `PowerSet` | power_set.dfy | the bit-mask enumeration of key subsets, including its 32-bit shift behaviour |
| `TableDefinition` | table_definition.dfy | the `TableDefinition` record, its projections and the unique-key token resolution of `ParseTabledef` |
| `Generator` | generator.dfy | the SQL the generator's extension methods emit |
| `Grouping` | grouping.dfy | LINQ `GroupBy` (groups in order of first key appearance) and `Where` |
| `SqlRecord` | sql_record.dfy | `SQLRecordAttribute`, `GetSQLType`, the helper properties, `GetExtraLines` and every statement of `SQLRecord<T>` |
| `PostgreSql` | postgresql.dfy | `Connect`'s server split, `SetSchema`, `ConvertToFriendlyParameter` |
| `CrossPath` | cross_path.dfy | the generator and the runtime set side by side for one table |

Collaborators the core calls but does not define are parameters of the model:

- `Common.Escape`, the dialect's `GetSQLType` and `Common.NameParser` are function-valued parameters.
- A column's SQL and C# type names are plain fields.
- A parameter's nullability is a plain flag.

## Model

| member | source | states |
|---|---|---|
| TableDefinition.ProjectionsPartition | CommonStructureLibrary/SQL/ClassCreator/TableDefinition.cs:12-14 | The primary keys followed by the data columns are exactly the columns, for any primary-key count. A count at or above the column count leaves no data columns. A count at or below zero leaves no keys. An in-range count gives that many keys. |
| TableDefinition.UniqueKeys | CommonStructureLibrary/SQL/ClassCreator/TableDefinition.cs:13 | Succeeds exactly when every index of every unique-key map lies inside the column list. Entry `i` of map `m` is then the column at that index. Otherwise the lookup fails with an index-out-of-range error. |
| TableDefinition.PrimaryKeyCountRoundTrip | CommonStructureLibrary/SQL/ClassCreator/TableDefinition.cs:73 | A primary-key count written the way `int.ToString` writes it reads back as the same count. |
| TableDefinition.IndexOfName | CommonStructureLibrary/SQL/ClassCreator/TableDefinition.cs:104-107 | Finds the first column with exactly that name, and no earlier column has it. There is no answer exactly when no column has the name. |
| TableDefinition.ResolveToken | CommonStructureLibrary/SQL/ClassCreator/TableDefinition.cs:98-110 | A numeric token stands for its number, with no range check. Otherwise it stands for the index of the first column so named. Otherwise it yields nothing, exactly when no column has that name. |
| TableDefinition.ResolvedIndicesJustified | CommonStructureLibrary/SQL/ClassCreator/TableDefinition.cs:97-110 | A unique-key map never has more entries than tokens. Every entry came from a numeric token or is the index of a column whose name is one of the tokens. |
| TableDefinition.ResolveTokensInOrder | CommonStructureLibrary/SQL/ClassCreator/TableDefinition.cs:97-110 | When every token resolves, the map has one entry per token, in token order. |
| TableDefinition.UniqueKeyMapOfNames | CommonStructureLibrary/SQL/ClassCreator/TableDefinition.cs:97-110 | Suppose a unique key is written as column names separated by `,`, the names are distinct, and none has a comma, surrounding white space or a numeric form. Then the setting resolves back to exactly those column indices, in order. |
| Text.Split | CommonStructureLibrary/SQL/PostgreSQL.cs:16 | There is at least one segment and none contains the separator. There are two or more exactly when the separator occurs. Without the separator the only segment is the whole string. Otherwise the first segment is the text before the first separator. |
| Text.SplitJoin | CommonStructureLibrary/SQL/PostgreSQL.cs:16 | Joining the segments with the separator gives back the original string. |
| Text.JoinSplit | CommonStructureLibrary/SQL/PostgreSQL.cs:16 | Splitting a join of separator-free parts gives back the parts. |
| Text.Trim | CommonStructureLibrary/SQL/ClassCreator/TableDefinition.cs:97 | The result occurs in the input with only white space before and after it, and it neither starts nor ends with white space. |
| Text.NatToStringInjective | CommonStructureLibrary/SQL/ClassCreator/TableDefinition.cs:277 | Different indices print differently. |
| Text.Int32ToStringInjective | CommonStructureLibrary/SQL/SQLRecord.cs:116-117 | Different parameter positions print differently. |
| Text.TryParseInt32 | CommonStructureLibrary/SQL/PostgreSQL.cs:23 | A successful parse is a 32-bit value. `Text.ParseAcceptedForm` and `Text.ParsedTextHasAcceptedForm` together fix exactly which texts parse. |
| Text.ParseInt32RoundTrip | CommonStructureLibrary/SQL/PostgreSQL.cs:23 | Every 32-bit value printed with `ToString` parses back to itself. |
| Text.ParseAcceptedForm | CommonStructureLibrary/SQL/PostgreSQL.cs:23 | The parser accepts white space, an optional `+` or `-`, digits with leading zeros allowed, then white space, so `" 5"`, `"+5"` and `"007"` parse to 5. Such a text parses to its value exactly when the value fits in 32 bits. Otherwise it fails. |
| Text.ParsedTextHasAcceptedForm | CommonStructureLibrary/SQL/ClassCreator/TableDefinition.cs:100 | The converse: any text that parses is white space, an optional sign, digits, white space. Every other text is rejected, so a unique-key token such as `id` falls through to the name lookup and a port such as `abc` is not taken. |
| Text.RejectedTexts | CommonStructureLibrary/SQL/PostgreSQL.cs:23 | `""`, `"abc"`, `"5a"`, `"--5"` and `"5"` followed by a non-breaking space all fail to parse. |
| Text.NonDigitRejected | CommonStructureLibrary/SQL/ClassCreator/TableDefinition.cs:100 | A text without white space at its ends that holds a character other than a digit, apart from one leading sign, does not parse. |
| Text.SpacedNumberParses | CommonStructureLibrary/SQL/PostgreSQL.cs:23 | `" 5432"` parses to 5432. |
| Text.PlaceholdersDistinct | CommonStructureLibrary/SQL/SQLRecord.cs:119 | The placeholders `@0 .. @(n-1)` are pairwise distinct. |
| Text.PlaceholderInjective | CommonStructureLibrary/SQL/SQLRecord.cs:116-117 | Two parameters with the same placeholder text have the same position. |
| PowerSet.IndicesWhere | CommonStructureLibrary/SQL/ClassCreator/TableDefinition.cs:189 | A position is selected exactly when its flag is set, and the selected positions are strictly ascending. |
| PowerSet.NonEmpty | CommonStructureLibrary/SQL/ClassCreator/TableDefinition.cs:191 | Skipping empty subsets keeps exactly the non-empty ones and never adds any. |
| PowerSet.ValueOfDigits | CommonStructureLibrary/SQL/ClassCreator/TableDefinition.cs:188-189 | A pattern below `2^k` is recovered from its `k` bit tests. |
| PowerSet.DigitsOfValue | CommonStructureLibrary/SQL/ClassCreator/TableDefinition.cs:188-189 | Every choice of `k` flags is the bit tests of some pattern. |
| PowerSet.SubsetInjective | CommonStructureLibrary/SQL/ClassCreator/TableDefinition.cs:188-189 | Two patterns below `2^k` that select the same keys are the same pattern. |
| PowerSet.SubsetEmptyIffZero | CommonStructureLibrary/SQL/ClassCreator/TableDefinition.cs:191 | Only pattern 0 selects no key, so the `continue` skips exactly one pattern. |
| PowerSet.KeySubsetsArePatterns | CommonStructureLibrary/SQL/ClassCreator/TableDefinition.cs:188-191 | The accessor subsets are those of patterns `1 .. 2^k - 1` in increasing order, `2^k - 1` of them. |
| PowerSet.KeySubsetsDistinct | CommonStructureLibrary/SQL/ClassCreator/TableDefinition.cs:188-191 | No key subset is generated twice. |
| PowerSet.KeySubsetsWellFormed | CommonStructureLibrary/SQL/ClassCreator/TableDefinition.cs:188-191 | Every generated subset is non-empty, strictly ascending and within the keys. |
| PowerSet.KeySubsetsComplete | CommonStructureLibrary/SQL/ClassCreator/TableDefinition.cs:188-191 | Every non-empty ascending choice of key positions is generated. |
| PowerSet.FullSubsetIffAllKeys | CommonStructureLibrary/SQL/ClassCreator/TableDefinition.cs:192 | A subset has as many members as there are keys exactly when it is all the keys in order. |
| PowerSet.EnumerateAsWritten | CommonStructureLibrary/SQL/ClassCreator/TableDefinition.cs:188-189 | With C#'s 32-bit shift, the enumeration throws exactly when the key count is 31 modulo 32. Otherwise every position it yields is a valid key position. |
| PowerSet.MaskedSubsetAgrees | CommonStructureLibrary/SQL/ClassCreator/TableDefinition.cs:189 | Up to 32 keys, the 32-bit bit test selects the same keys as the unbounded one. |
| PowerSet.AsWrittenAgrees | CommonStructureLibrary/SQL/ClassCreator/TableDefinition.cs:188-191 | Up to 30 keys, the enumeration as written yields exactly the key subsets above. |
| PowerSet.ThirtyOneKeysThrow | CommonStructureLibrary/SQL/ClassCreator/TableDefinition.cs:188 | With 31 keys, `1 << 31` is negative and `Enumerable.Range` throws. |
| PowerSet.ThirtyTwoKeysYieldNothing | CommonStructureLibrary/SQL/ClassCreator/TableDefinition.cs:188 | With 32 keys, the shift wraps to 1 and no accessor is generated. |
| Generator.QuotedListIsListOfQuoted | CommonStructureLibrary/SQL/ClassCreator/TableDefinition.cs:280 | One quote pair around names joined by `", "` equals the quoted names joined by `, `, for a non-empty list. |
| Generator.ClauseTextIsJoin | CommonStructureLibrary/SQL/ClassCreator/TableDefinition.cs:146-163 | The emitted pieces, each followed by `, ` except the last extra clause, which is followed by a space, are the `, `-joined clause list and a closing space. |
| Generator.EmitColumnDefinitions | CommonStructureLibrary/SQL/ClassCreator/TableDefinition.cs:147-150 | The column loop writes every column definition followed by `, `, in column order. |
| Generator.EmitExtraClauses | CommonStructureLibrary/SQL/ClassCreator/TableDefinition.cs:153-162 | The extra-clause loop writes every trimmed clause followed by `, `, except the last, which is followed by a space. It writes nothing when there are no clauses. |
| Generator.CreateDB | CommonStructureLibrary/SQL/ClassCreator/TableDefinition.cs:134-165 | The statement is the column definitions, the primary-key clause and the trimmed extra clauses joined by `, ` inside `CREATE TABLE IF NOT EXISTS "T" (...);`, with a space before `)` when there is any extra clause. It fails with index-out-of-range exactly when a unique-key map holds a bad index. |
| Generator.AccessorsFromKeySubsets | CommonStructureLibrary/SQL/ClassCreator/TableDefinition.cs:188-229 | Up to 30 keys, the selects and deletes are built from the key subsets, in pattern order. |
| Generator.AccessorCount | CommonStructureLibrary/SQL/ClassCreator/TableDefinition.cs:188-229 | Up to 30 keys, there are `2^k - 1` keyed selects and as many keyed deletes. |
| Generator.AccessorAt | CommonStructureLibrary/SQL/ClassCreator/TableDefinition.cs:188-229 | Select `j` and delete `j` are the helpers applied to key subset `j`. |
| Generator.SelectDeleteShareCondition | CommonStructureLibrary/SQL/ClassCreator/TableDefinition.cs:196-242 | Select `j` and delete `j` take the same arguments, which are the key columns of subset `j` in ascending key order. They carry the matching `SelectBy_`/`DeleteBy_` name. Both statements use the same WHERE condition, argument `i` against `@i`. |
| Generator.SingleResultIffFullKey | CommonStructureLibrary/SQL/ClassCreator/TableDefinition.cs:192-212 | A keyed select returns a single record exactly when its subset is the whole key, and then its arguments are all key columns in order. |
| Generator.CascadeOnlyAddsKeyword | CommonStructureLibrary/SQL/ClassCreator/TableDefinition.cs:247-248 | `TRUNCATE "T";` and `DROP TABLE IF EXISTS "T";`. With cascade, ` CASCADE` goes before the semicolon and nothing else changes. |
| Generator.SelectWhereExtendsSelectAll | CommonStructureLibrary/SQL/ClassCreator/TableDefinition.cs:178-184 | The generated select-all is `SELECT * FROM "T";`. The conditional select is that text with ` WHERE <query>` and a stray space inserted before the semicolon, the query copied verbatim. |
| Generator.PlaceholderMap | CommonStructureLibrary/SQL/ClassCreator/TableDefinition.cs:273-279 | Building the name-to-parameter dictionary succeeds exactly when the column names are distinct, and it fails with an argument error otherwise. Its keys are exactly the column names, and each name maps to its column's index. |
| Generator.AssignmentsUseOwnIndex | CommonStructureLibrary/SQL/ClassCreator/TableDefinition.cs:273-283 | With distinct names, the SET list is exactly the data columns and the WHERE list exactly the key columns, in order, each with `@` of its own column index. |
| Generator.NumberedByMap | CommonStructureLibrary/SQL/ClassCreator/TableDefinition.cs:282-283 | A dictionary sending every column to its index numbers the SET and WHERE lists by index. |
| Generator.UpdateRendersAssignments | CommonStructureLibrary/SQL/ClassCreator/TableDefinition.cs:282-295 | With distinct names, the update is `UPDATE "T" SET "c_k" = @k, ... WHERE "c_0" = @0 AND ... AND "c_k-1" = @k-1;`, where `k` is the key count. Every data column is set and every key column compared, each with `@` of its own column index. |
| Generator.UpdateSetAndWhereSplit | CommonStructureLibrary/SQL/ClassCreator/TableDefinition.cs:282-295 | The update's SET list and WHERE list share no column and no parameter. |
| Generator.SlotsSplitAt | CommonStructureLibrary/SQL/ClassCreator/TableDefinition.cs:282-283 | Columns from the key count on and columns below it, each numbered by its index, share no column and no slot when the names are distinct. |
| Generator.InsertAndUpsertShareHead | CommonStructureLibrary/SQL/ClassCreator/TableDefinition.cs:286-302 | The insert is the shared head and `;`, with no conflict clause. The upsert is the same head, then `ON CONFLICT (` with exactly the quoted key names in order, then `) DO UPDATE SET` with the update's SET list. |
| Generator.InsertListsEveryColumn | CommonStructureLibrary/SQL/ClassCreator/TableDefinition.cs:280-289 | The insert lists every quoted column in order and the parameters `@0 ..` in the same order. |
| Generator.DuplicateNamesThrow | CommonStructureLibrary/SQL/ClassCreator/TableDefinition.cs:278 | Duplicate column names make the generator throw instead of emitting row statements. |
| Grouping.Filter | CommonStructureLibrary/SQL/SQLRecord.cs:118 | The items of one group all have the group's key and are no more than the items. |
| Grouping.Keys | CommonStructureLibrary/SQL/SQLRecord.cs:118 | Group keys are pairwise distinct. Every item's key is among them, and every key is some item's. |
| Grouping.KeysInFirstAppearanceOrder | CommonStructureLibrary/SQL/SQLRecord.cs:118 | Groups come in order of first appearance: wherever a later group's key occurs, every earlier group's key has already occurred. |
| Grouping.FilterNonEmptyIffKey | CommonStructureLibrary/SQL/SQLRecord.cs:118 | A group is never empty: a key is listed exactly when some item has it. |
| Grouping.GroupSizesAddUp | CommonStructureLibrary/SQL/SQLRecord.cs:118 | The groups partition the items: their sizes add up to the number of items. |
| Grouping.ItemInOwnGroup | CommonStructureLibrary/SQL/SQLRecord.cs:129 | Every item sits in the group of its own key. |
| SqlRecord.AcceptedAttributeGivesKey | CommonStructureLibrary/SQL/SQLRecord.cs:28-33 | The attribute constructor refuses fewer than one key. So a record whose attribute it accepted with count `n` has as keys its first `n` parameters, or all of them when there are fewer. A record with any parameter has at least one key. |
| SqlRecord.GetSqlTypeFirstKnown | CommonStructureLibrary/SQL/SQLRecord.cs:98-108 | The lookup succeeds exactly when the dialect knows some type along the enum/nullable chain. Its answer is the first known type's. It fails exactly when none is known, naming the innermost plain type in the message. |
| SqlRecord.KeysAndDataPartition | CommonStructureLibrary/SQL/SQLRecord.cs:114-115 | The keys followed by the data are the parameters. The key count is the attribute's, clamped to the parameter list. A record with parameters has at least one key. |
| SqlRecord.OverrideIgnored | CommonStructureLibrary/SQL/SQLRecord.cs:110-111 | The runtime table name is the escaped type name, and adding, removing or changing a `[TableName]` override does not change it. |
| SqlRecord.OverrideIgnoredExample | CommonStructureLibrary/SQL/SQLRecord.cs:110-111 | `[TableName("people")] record Person` is stored in `"Person"`, not in the `"people"` the override asks for. |
| SqlRecord.IntendedNameHonoursOverride | CommonStructureLibrary/SQL/SQLRecord.cs:74-81 | The corrected name follows the override whenever there is one. It differs from the runtime's name exactly when an override escapes differently from the type name. |
| SqlRecord.KeyAssignmentsUseNumbers | CommonStructureLibrary/SQL/SQLRecord.cs:114-119 | When positions are indices, key `i` is compared with exactly the placeholder the VALUES list puts at index `i`. |
| SqlRecord.DataAssignmentsUseNumbers | CommonStructureLibrary/SQL/SQLRecord.cs:114-119 | When positions are indices, data parameter `j` is set from exactly the placeholder the VALUES list puts at index `j`. |
| SqlRecord.FormatAll | CommonStructureLibrary/SQL/SQLRecord.cs:160-162 | The column definitions succeed exactly when every parameter's type maps, and then they are in parameter order. Otherwise the error is that of the first parameter whose type has no SQL type. |
| SqlRecord.NotNullUnlessNullable | CommonStructureLibrary/SQL/SQLRecord.cs:162 | A column definition is the escaped name, a space and the SQL type. It is followed by ` NOT NULL` exactly when the parameter is not nullable. It fails exactly when the type has no SQL type. |
| SqlRecord.DropCascadeOnlyAddsKeyword | CommonStructureLibrary/SQL/SQLRecord.cs:194 | At run time `Drop` sends `DROP TABLE IF EXISTS <table>;`, where the table is the escaped type name. With cascade, ` CASCADE` goes before the semicolon and nothing else changes. |
| SqlRecord.SelectWhereExtendsSelectAll | CommonStructureLibrary/SQL/SQLRecord.cs:215-226 | At run time the select-all is `SELECT * FROM <escaped type name>;`. The conditional select is that text with ` WHERE <condition>` inserted before the semicolon, the condition copied verbatim. |
| SqlRecord.FirstFailureError | CommonStructureLibrary/SQL/SQLRecord.cs:173-177 | The error reported is the first failing parameter's. |
| SqlRecord.KindBlocksCount | CommonStructureLibrary/SQL/SQLRecord.cs:125-157 | Over groups with distinct attribute types, each type present contributes its lines exactly once. |
| SqlRecord.UniqueBlocksCount | CommonStructureLibrary/SQL/SQLRecord.cs:129-143 | Over inner groups with distinct numbers, the ungrouped parameters give one line each and every numbered group one line. |
| SqlRecord.UniqueLinesCount | CommonStructureLibrary/SQL/SQLRecord.cs:127-144 | `[Unique]` writes one line per ungrouped attribute plus one per distinct group number. |
| SqlRecord.ExtraLinesCount | CommonStructureLibrary/SQL/SQLRecord.cs:122-158 | `GetExtraLines` writes the `[Unique]` lines, one line per `[Check]` and one per `[FK]` attribute, and nothing for other attributes. |
| SqlRecord.CheckAttributeRendered | CommonStructureLibrary/SQL/SQLRecord.cs:144-147 | Every `[Check]` attribute on any parameter gives the line `CHECK(<escaped name> <condition>)` among the extra lines. |
| SqlRecord.ForeignKeyAttributeRendered | CommonStructureLibrary/SQL/SQLRecord.cs:148-155 | Every `[FK]` attribute on any parameter gives `FOREIGN KEY(<name>) REFERENCES <table>(<key>)` among the extra lines, with all three names escaped. |
| SqlRecord.UngroupedUniqueRendered | CommonStructureLibrary/SQL/SQLRecord.cs:128-136 | Every `[Unique]` attribute without a group number gives its own `UNIQUE(<escaped name>)` line among the extra lines. |
| SqlRecord.GroupedUniqueRendered | CommonStructureLibrary/SQL/SQLRecord.cs:138-141 | A `[Unique(g)]` attribute gives one `UNIQUE(...)` line among the extra lines. That line lists the escaped names of every `[Unique]` pair numbered `g`, this parameter among them. The pairs come in parameter order, and within one parameter in the attribute order reflection returns. |
| SqlRecord.ClauseTextIsJoin | CommonStructureLibrary/SQL/SQLRecord.cs:169-190 | Definitions each followed by `, `, then the key clause, then each extra line led by `, `, form the `, `-joined clause list. |
| SqlRecord.EmitColumnDefinitions | CommonStructureLibrary/SQL/SQLRecord.cs:173-177 | The column loop writes each definition followed by `, `, or stops with the first parameter's error. |
| SqlRecord.EmitLines | CommonStructureLibrary/SQL/SQLRecord.cs:181-188 | Each extra line is written led by `, `. |
| SqlRecord.CreateDB | CommonStructureLibrary/SQL/SQLRecord.cs:167-192 | On success the statement is wrapped as `CREATE TABLE IF NOT EXISTS T (...);`, where `T` is the escaped type name even under a `[TableName]` override. Inside, the definitions, the primary key, the attribute lines and the raw lines are joined by `, `. Otherwise the result is the first type error. |
| SqlRecord.ConditionalDeleteDoublesSemicolon | CommonStructureLibrary/SQL/SQLRecord.cs:252-259 | The conditional delete is the plain delete of the same condition with one more `;`, so it ends `;;`. The conditional select ends with a single `;`. |
| SqlRecord.DeleteAndUpdateShareWhere | CommonStructureLibrary/SQL/SQLRecord.cs:259-271 | The instance delete is the plain delete with the key condition. The delete and the update both end in the same ` WHERE <keys>;`. |
| SqlRecord.InsertAndUpsertShareTarget | CommonStructureLibrary/SQL/SQLRecord.cs:264-276 | Insert and upsert are the same text through `ON CONFLICT(<keys>) DO `. Insert then does `NOTHING;` and upsert `UPDATE SET <data>;`. |
| PostgreSql.ParseServer | CommonStructureLibrary/SQL/PostgreSQL.cs:14-31 | Refused, with its message, exactly when there is a ':' and the text before it is `http`/`https` in any case. The host never contains ':'. It is the text before the first ':', or the whole string with no port when there is no ':'. |
| PostgreSql.HostPortRoundTrip | CommonStructureLibrary/SQL/PostgreSQL.cs:14-26 | `host:port` comes back as that host and 32-bit port. |
| PostgreSql.ExtraSegmentsIgnored | CommonStructureLibrary/SQL/PostgreSQL.cs:16-26 | Anything after a second ':' is ignored. The port is whatever the second segment parses to. |
| PostgreSql.TwoSegmentServer | CommonStructureLibrary/SQL/PostgreSQL.cs:16-26 | `host:port` with a single `:` gives that host and whatever `int.TryParse` makes of the port text. So the port is set exactly when the text has the accepted form (`Text.ParseAcceptedForm`, `Text.ParsedTextHasAcceptedForm`) and its value fits in 32 bits. |
| PostgreSql.NonNumericPortUnset | CommonStructureLibrary/SQL/PostgreSQL.cs:22-26 | `db:abc` gives host `db` with the port unset. |
| PostgreSql.SpacedPortParses | CommonStructureLibrary/SQL/PostgreSQL.cs:22-26 | `db: 5432` gives host `db` and port 5432. |
| PostgreSql.SchemaCreatedIsSchemaSearched | CommonStructureLibrary/SQL/PostgreSQL.cs:48-53 | When the parsed name has no quote of its own, the created schema and the searched schema are the same quoted name. |
| PostgreSql.OnlyNamedSchemaCreated | CommonStructureLibrary/SQL/PostgreSQL.cs:48-57 | The statement creates a schema exactly when a schema is named. Without one it restores the default search path, `"$user", public`. |
| PostgreSql.ConvertToFriendlyParameter | CommonStructureLibrary/SQL/PostgreSQL.cs:60-80 | The result is null exactly when the input is null. A char becomes a one-character string. Strings, other values, signed integers and `byte` pass unchanged. No unsigned 16/32/64-bit integer, enum or char is ever handed to the driver. Values stay within their types' ranges. |
| PostgreSql.UnsignedCastRoundTrip | CommonStructureLibrary/SQL/PostgreSQL.cs:76-78 | The cast goes to the signed type of the same width and keeps the bit pattern. The value is unchanged exactly when it fits the signed range. |
| PostgreSql.UnsignedCastInjective | CommonStructureLibrary/SQL/PostgreSQL.cs:76-78 | Different unsigned values stay different after the cast. |
| PostgreSql.EnumSentAsUnderlying | CommonStructureLibrary/SQL/PostgreSQL.cs:66-70 | An enum is sent exactly as its underlying integer would be. |
| CrossPath.EscapedNamesAgree | CommonStructureLibrary/SQL/SQLRecord.cs:161 | With an escape that only adds quotes, the runtime's escaped names are the generator's quoted names. |
| CrossPath.InsertHeadsAgree | CommonStructureLibrary/SQL/SQLRecord.cs:264-266 | For the same table, named after the record type, the runtime's insert head is the generator's followed by a space. |
| CrossPath.KeyNamesAgree | CommonStructureLibrary/SQL/SQLRecord.cs:267 | For the same table, the runtime's conflict target is the generator's quoted key list. |
| CrossPath.GeneratorInsertIsPlain | CommonStructureLibrary/SQL/ClassCreator/TableDefinition.cs:286-289 | The generated insert is the head and `;`, with no conflict clause. |
| CrossPath.RuntimeInsertAddsConflictClause | CommonStructureLibrary/SQL/SQLRecord.cs:264-267 | For the same table, the runtime insert is the generated insert with ` ON CONFLICT(<keys>) DO NOTHING` in place of the bare `;`. A duplicate key is skipped silently at run time but is an error through the generated code. |
| CrossPath.GeneratorQuotingCollides | CommonStructureLibrary/SQL/ClassCreator/TableDefinition.cs:139 | The generator does not double embedded quotes. So columns `a`, `b` and the single column `a", "b` give the same `UNIQUE` clause. |

Differences between the two paths that the model keeps as written:

- The generated insert has no conflict clause; the runtime insert has `ON CONFLICT(...) DO NOTHING`.
- The generated upsert writes `ON CONFLICT (` with a space; the runtime writes `ON CONFLICT(`.
- The generated conditional select ends ` ;`.
- The runtime conditional delete ends `;;`.
- The generator quotes names by wrapping them in `"` without doubling; the runtime delegates to `Common.Escape`.
- The generator names the table after the definition's `tableName`. The runtime always uses the record's type name, even under `[TableName]` (see Findings).

## Findings

| source | as written | input that shows it | evidently intended | confidence | as-written member | corrected member |
|---|---|---|---|---|---|---|
| CommonStructureLibrary/SQL/SQLRecord.cs:110-111 | `TableName` reads `TNA`, which is declared on the next line. Static fields are initialised in textual order, so `TNA` is still null and the override is never used. | `[TableName("people")] record Person(...)`: every runtime statement names `"Person"` | the override names the table when present, as the attribute's documentation says (SQLRecord.cs:74-81) | high; not executed | SqlRecord.OverrideIgnoredExample | SqlRecord.IntendedNameHonoursOverride |

The runtime statements in the model use the name as written (`SqlRecord.TableName`), because that is the SQL the library sends. `SqlRecord.IntendedTableName` is the corrected definition. Swapping the declarations of `TableName` and `TNA` would make the runtime compute it.

## Left out

- Code emission: the C# text around the SQL is not modelled. That covers record and method signatures, regions, `GetRecords`, `ToArray`, the example enums and the C# escaping of quotes and backslashes. The model states the SQL string each emitted literal denotes.
- The generator escapes quotes inside extra clauses with `Replace("\"", "\\\"")`. That is C# escaping and is not modelled; the clause is used as trimmed.
- The parsing side of `ParseTabledef` is not modelled: line splitting, `SettingsParser` and the metadata switch. Only the per-token resolution of unique-key settings and the primary-key count parse are modelled. `SettingsParser` is not part of this model.
- Execution is not modelled: `ExecuteNonQuery`, `ExecuteReader`, reading records back, transactions, `Truncate` through `SQLDB.Truncate` and async behaviour. The runtime's `Truncate` delegates to the database class.
- `Conditional.Build` is an opaque string passed in (`built`). Its parameter list is not modelled.
- `Common.Escape`, `Common.NameParser`, `SQLDB.GetSQLType` and `IsNullable` are parameters or fields, because their code is outside this core.
- Reflection is taken as given: a record is its name, its attributes and its constructor parameters with positions. `SqlRecord.KeyAssignmentsUseNumbers` and `SqlRecord.DataAssignmentsUseNumbers` assume positions equal indices, as reflection reports for a primary constructor.
- Static-initializer failures are not modelled. In C#, an exception in a static field surfaces as a `TypeInitializationException` on first use. The model reports the underlying failure directly.
- `Connect` building the connection string is not modelled: SslMode, pooling, certificate trust, opening the connection and the builder's own port validation.
- `ConvertToFriendlyParameters` (the array form) is not modelled. `Convert.ChangeType` for an enum is modelled as taking the underlying value.
- `PostgreSql.ConvertToFriendlyParameter`: the unsigned-to-signed cast is modelled as unchecked, keeping the bit pattern, which is C#'s default context.
- `Text.AsciiLower`: `ToLower` is modelled on ASCII letters only. No non-ASCII letter lower-cases to one of `h`, `t`, `p`, `s`, so the http test is unaffected.
- `Text.TryParseInt32`: trailing NUL characters, which .NET's parser also accepts, are not modelled. Neither are cultures other than the invariant one.
- `Generator.AccessorCount`, `Generator.AccessorAt`, `Generator.SelectDeleteShareCondition` and `Generator.SingleResultIffFullKey` are stated for at most 30 primary keys. Beyond that, the 32-bit shift makes the enumeration throw or wrap; `PowerSet.EnumerateAsWritten` and its lemmas say how.
- `CrossPath.RuntimeInsertAddsConflictClause` and `CrossPath.InsertHeadsAgree` require at least one column. The generator quotes an empty column list as `""`, while the runtime writes nothing.
- The documented rule that primary keys must not be nullable is not enforced by the code and is not modelled.
