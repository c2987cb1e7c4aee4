/** The runtime record path: a record type's constructor parameters, read by reflection, give
    the table's columns; the static helpers render them into SQL text once per type, and each
    statement is that text with the record's values bound to `@0 .. @(n-1)`. */
module SqlRecord {
  import opened Wrappers
  import opened Text
  import opened Grouping

  // ---------------------------------------------------------------- types and attributes

  /** A CLR type as far as the SQL mapping looks at it: a plain type, an enum over an
      underlying integral type, or `Nullable<U>`. */
  datatype ClrType =
    | Named(name: string)
    | EnumOf(name: string, underlying: ClrType)
    | NullableOf(underlying: ClrType)

  /** The database-specific collaborators: `Common.Escape` for identifiers and the dialect's
      `GetSQLType`, which knows some types and answers nothing for the rest. */
  datatype Dialect = Dialect(escape: string -> string, sqlTypeOf: ClrType -> Option<string>)

  /** The parameter attributes: `[Unique]` / `[Unique(group)]`, `[Check(...)]`, `[FK(table, key)]`,
      and any other attribute, which contributes no SQL. */
  datatype ParamAttribute =
    | Unique(group: Option<int>)
    | Check(condition: string)
    | ForeignKey(table: string, key: string)
    | OtherAttribute(typeName: string)

  /** The attribute's type, the key of the outer grouping. */
  datatype AttributeKind = UniqueKind | CheckKind | ForeignKeyKind | OtherKind(typeName: string)

  function KindOf(a: ParamAttribute): AttributeKind {
    match a
    case Unique(_) => UniqueKind
    case Check(_) => CheckKind
    case ForeignKey(_, _) => ForeignKeyKind
    case OtherAttribute(n) => OtherKind(n)
  }

  /** One primary-constructor parameter: its name, its position, its type, whether it is
      nullable, and its attributes in the order reflection returns them. */
  datatype Param = Param(name: string, position: int, paramType: ClrType, nullable: bool, attributes: seq<ParamAttribute>)

  /** `[SQLRecord(n)]`: how many parameters from the left form the primary key, and raw SQL lines. */
  datatype RecordAttribute = RecordAttribute(primaryKeys: int, sqlLines: seq<string>)

  /** A record type: its name, the `[TableName]` override if any, its `[SQLRecord]` attribute
      and its constructor parameters in order. */
  datatype Record = Record(typeName: string, tableNameOverride: Option<string>, attribute: RecordAttribute, parameters: seq<Param>)

  /** The `SQLRecordAttribute` constructor: fewer than one primary key is refused. */
  function NewRecordAttribute(primaryKeys: int): (r: Result<RecordAttribute, Exception>)
    ensures r.Success? <==> primaryKeys >= 1
    ensures r.Success? ==> r.value.primaryKeys == primaryKeys && r.value.sqlLines == []
    ensures r.Failure? ==> r.error == ArgumentException("All SQL Records must have at least 1 primary key!")
  {
    if primaryKeys < 1 then Failure(ArgumentException("All SQL Records must have at least 1 primary key!"))
    else Success(RecordAttribute(primaryKeys, []))
  }

  // ---------------------------------------------------------------- SQL types

  /** The types `GetSQLType` may consult, outermost first: the type, then (through enums and
      nullables) its underlying types down to a plain one. */
  function Chain(t: ClrType): (r: seq<ClrType>)
    ensures |r| >= 1 && r[0] == t && r[|r| - 1].Named?
  {
    match t
    case Named(_) => [t]
    case EnumOf(_, u) => [t] + Chain(u)
    case NullableOf(u) => [t] + Chain(u)
  }

  /** `GetSQLType`: ask the dialect; failing that, retry with an enum's underlying type or a
      nullable's underlying type; a plain type the dialect does not know is an error. */
  function GetSqlType(d: Dialect, t: ClrType): Result<string, Exception> {
    match d.sqlTypeOf(t)
    case Some(s) => Success(s)
    case None =>
      match t
      case EnumOf(_, u) => GetSqlType(d, u)
      case NullableOf(u) => GetSqlType(d, u)
      case Named(n) => Failure(ArgumentException("Type \"" + n + "\" is not a valid SQL Type!"))
  }

  /** Position `i` of the chain is the first one the dialect knows. */
  predicate FirstKnown(d: Dialect, c: seq<ClrType>, i: int) {
    && 0 <= i < |c|
    && d.sqlTypeOf(c[i]).Some?
    && forall j :: 0 <= j < i ==> d.sqlTypeOf(c[j]).None?
  }

  /** The dialect knows no type of the chain. */
  predicate NoneKnown(d: Dialect, c: seq<ClrType>) {
    forall i :: 0 <= i < |c| ==> d.sqlTypeOf(c[i]).None?
  }

  /** `GetSQLType` answers with the dialect's type for the first type of the chain the dialect
      knows, and fails, naming the innermost plain type, exactly when it knows none of them. */
  lemma {:induction false} GetSqlTypeFirstKnown(d: Dialect, t: ClrType)
    ensures GetSqlType(d, t).Success? <==> !NoneKnown(d, Chain(t))
    ensures GetSqlType(d, t).Success? ==>
              exists i :: FirstKnown(d, Chain(t), i) && d.sqlTypeOf(Chain(t)[i]) == Some(GetSqlType(d, t).value)
    ensures GetSqlType(d, t).Failure? ==>
              GetSqlType(d, t).error
              == ArgumentException("Type \"" + Chain(t)[|Chain(t)| - 1].name + "\" is not a valid SQL Type!")
    decreases t
  {
    if d.sqlTypeOf(t).Some? {
      assert FirstKnown(d, Chain(t), 0);
    } else if !t.Named? {
      var u := t.underlying;
      GetSqlTypeFirstKnown(d, u);
      ChainCons(t);
      assert GetSqlType(d, t) == GetSqlType(d, u);
      if GetSqlType(d, u).Success? {
        var i :| FirstKnown(d, Chain(u), i) && d.sqlTypeOf(Chain(u)[i]) == Some(GetSqlType(d, u).value);
        KnownShift(d, t, Chain(u), i);
      } else {
        NoneKnownCons(d, t, Chain(u));
        LastOfCons(t, Chain(u));
      }
    } else {
      assert Chain(t) == [t];
    }
  }

  lemma ChainCons(t: ClrType)
    requires !t.Named?
    ensures Chain(t) == [t] + Chain(t.underlying)
  {
  }

  lemma LastOfCons(t: ClrType, c: seq<ClrType>)
    requires |c| > 0
    ensures ([t] + c)[|c|] == c[|c| - 1]
  {
  }

  lemma KnownShift(d: Dialect, t: ClrType, c: seq<ClrType>, i: int)
    requires FirstKnown(d, c, i) && d.sqlTypeOf(t).None?
    ensures FirstKnown(d, [t] + c, i + 1) && ([t] + c)[i + 1] == c[i]
    ensures !NoneKnown(d, [t] + c)
  {
    var e := [t] + c;
    assert e[i + 1] == c[i];
    forall j | 0 <= j < i + 1 ensures d.sqlTypeOf(e[j]).None? {
      if j > 0 {
        assert e[j] == c[j - 1];
      }
    }
  }

  lemma NoneKnownCons(d: Dialect, t: ClrType, c: seq<ClrType>)
    requires NoneKnown(d, c) && d.sqlTypeOf(t).None?
    ensures NoneKnown(d, [t] + c)
  {
    var e := [t] + c;
    forall j | 0 <= j < |e| ensures d.sqlTypeOf(e[j]).None? {
      if j > 0 {
        assert e[j] == c[j - 1];
      }
    }
  }

  // ---------------------------------------------------------------- helper properties

  /** `TableName` as the runtime computes it. Its initializer reads `TNA`, which is declared
      after it; static fields are initialised in textual order, so `TNA` is still null there
      and the table is always named after the escaped type name. Every runtime statement
      below uses this name. */
  function TableName(d: Dialect, rec: Record): string {
    d.escape(rec.typeName)
  }

  /** The `[TableName]` override (escaped when the attribute was built) or, without one, the
      escaped type name: what the initializer evidently means to compute. */
  function IntendedTableName(d: Dialect, rec: Record): string {
    match rec.tableNameOverride
    case Some(n) => d.escape(n)
    case None => d.escape(rec.typeName)
  }

  /** The override has no effect on the runtime's table name: adding, removing or changing
      it leaves the name unchanged, and the name is the escaped type name. */
  lemma OverrideIgnored(d: Dialect, rec: Record, other: Option<string>)
    ensures TableName(d, rec) == TableName(d, rec.(tableNameOverride := other))
    ensures TableName(d, rec) == d.escape(rec.typeName)
  {
  }

  /** A concrete record where the two differ: `[TableName("people")] record Person(...)` is
      stored in `"Person"` although `"people"` was asked for. */
  lemma OverrideIgnoredExample()
    ensures var d := Dialect(Quote, t => None);
            var rec := Record("Person", Some("people"), RecordAttribute(1, []), []);
            && TableName(d, rec) == "\"Person\""
            && IntendedTableName(d, rec) == "\"people\""
            && TableName(d, rec) != IntendedTableName(d, rec)
  {
    var d := Dialect(Quote, t => None);
    var rec := Record("Person", Some("people"), RecordAttribute(1, []), []);
    assert TableName(d, rec)[1] == 'P';
    assert IntendedTableName(d, rec)[1] == 'p';
  }

  /** The intended name follows the override whenever there is one, and it differs from the
      runtime's name exactly when an override escapes differently from the type name. */
  lemma IntendedNameHonoursOverride(d: Dialect, rec: Record)
    ensures rec.tableNameOverride.Some? ==> IntendedTableName(d, rec) == d.escape(rec.tableNameOverride.value)
    ensures IntendedTableName(d, rec) == TableName(d, rec) <==>
              rec.tableNameOverride.None? || d.escape(rec.tableNameOverride.value) == d.escape(rec.typeName)
  {
  }

  function KeyCount(rec: Record): nat {
    Clamp(rec.attribute.primaryKeys, |rec.parameters|)
  }

  /** `PKs`: `RecordParameters.Take(PrimaryKeys)`. */
  function PKs(rec: Record): seq<Param> {
    rec.parameters[..KeyCount(rec)]
  }

  /** `Datas`: `RecordParameters.Skip(PrimaryKeys)`. */
  function Datas(rec: Record): seq<Param> {
    rec.parameters[KeyCount(rec)..]
  }

  /** A record whose attribute the constructor accepted has at least one key column as soon
      as it has a parameter: the key is the first `n` parameters, or all of them when there
      are fewer. */
  lemma AcceptedAttributeGivesKey(n: int, rec: Record)
    requires NewRecordAttribute(n) == Success(rec.attribute)
    ensures |PKs(rec)| == if n <= |rec.parameters| then n else |rec.parameters|
    ensures |rec.parameters| > 0 ==> |PKs(rec)| >= 1
  {
  }

  /** The keys then the data are exactly the parameters; with the attribute's guarantee of at
      least one key, a record with parameters has a non-empty key. */
  lemma KeysAndDataPartition(rec: Record)
    ensures PKs(rec) + Datas(rec) == rec.parameters
    ensures |PKs(rec)| == if rec.attribute.primaryKeys <= |rec.parameters| then
                              (if rec.attribute.primaryKeys < 0 then 0 else rec.attribute.primaryKeys)
                            else |rec.parameters|
    ensures rec.attribute.primaryKeys >= 1 && |rec.parameters| > 0 ==> |PKs(rec)| > 0
  {
    assert rec.parameters == rec.parameters[..KeyCount(rec)] + rec.parameters[KeyCount(rec)..];
  }

  /** `"name" = @position` for one parameter. */
  function AssignmentText(d: Dialect, p: Param): string {
    d.escape(p.name) + " = " + Placeholder(p.position)
  }

  function AssignmentTexts(d: Dialect, ps: seq<Param>): (r: seq<string>)
    ensures |r| == |ps|
    ensures forall i :: 0 <= i < |ps| ==> r[i] == AssignmentText(d, ps[i])
  {
    seq(|ps|, i requires 0 <= i < |ps| => AssignmentText(d, ps[i]))
  }

  /** `PKStrings`. */
  function PKStrings(d: Dialect, rec: Record): seq<string> {
    AssignmentTexts(d, PKs(rec))
  }

  /** `DataStrings`. */
  function DataStrings(d: Dialect, rec: Record): seq<string> {
    AssignmentTexts(d, Datas(rec))
  }

  function EscapedNameList(d: Dialect, ps: seq<Param>): (r: seq<string>)
    ensures |r| == |ps|
    ensures forall i :: 0 <= i < |ps| ==> r[i] == d.escape(ps[i].name)
  {
    seq(|ps|, i requires 0 <= i < |ps| => d.escape(ps[i].name))
  }

  /** `GetEscapedParameterNames`. */
  function EscapedNames(d: Dialect, ps: seq<Param>): string {
    Join(", ", EscapedNameList(d, ps))
  }

  /** Parameter `i` sits at position `i`, as reflection reports for a primary constructor. */
  predicate PositionsAreIndices(ps: seq<Param>) {
    forall i :: 0 <= i < |ps| ==> ps[i].position == i
  }

  /** The WHERE list and the VALUES list refer to the same slots: key `i` is compared with
      entry `i` of the parameter numbers. */
  lemma KeyAssignmentsUseNumbers(d: Dialect, rec: Record)
    requires PositionsAreIndices(rec.parameters)
    ensures var n, k := |rec.parameters|, KeyCount(rec);
            && |PKStrings(d, rec)| == k
            && forall i :: 0 <= i < k ==>
                 PKStrings(d, rec)[i] == d.escape(rec.parameters[i].name) + " = " + Placeholders(n)[i]
  {
  }

  /** The SET list and the VALUES list refer to the same slots: the data parameter at index `j`
      is set from entry `j` of the parameter numbers. */
  lemma DataAssignmentsUseNumbers(d: Dialect, rec: Record)
    requires PositionsAreIndices(rec.parameters)
    ensures var n, k := |rec.parameters|, KeyCount(rec);
            && |DataStrings(d, rec)| == n - k
            && forall j :: k <= j < n ==>
                 DataStrings(d, rec)[j - k] == d.escape(rec.parameters[j].name) + " = " + Placeholders(n)[j]
  {
    var n, k := |rec.parameters|, KeyCount(rec);
    var ds := Datas(rec);
    forall j | k <= j < n
      ensures DataStrings(d, rec)[j - k] == d.escape(rec.parameters[j].name) + " = " + Placeholders(n)[j]
    {
      assert ds[j - k] == rec.parameters[j];
      assert DataStrings(d, rec)[j - k] == AssignmentText(d, ds[j - k]);
    }
  }

  // ---------------------------------------------------------------- column definitions

  /** `FormatParameterInfo`: `name type`, then ` NOT NULL` unless the parameter is nullable. */
  function FormatParameterInfo(d: Dialect, p: Param): Result<string, Exception> {
    var t :- GetSqlType(d, p.paramType);
    Success(d.escape(p.name) + " " + t + (if p.nullable then "" else " NOT NULL"))
  }

  /** A column definition is the escaped name, a space and the SQL type, followed by
      ` NOT NULL` exactly when the parameter is not nullable; it fails exactly when the type has
      no SQL type. */
  lemma NotNullUnlessNullable(d: Dialect, p: Param)
    ensures FormatParameterInfo(d, p).Success? <==> GetSqlType(d, p.paramType).Success?
    ensures FormatParameterInfo(d, p).Success? ==>
              var head := d.escape(p.name) + " " + GetSqlType(d, p.paramType).value;
              var r := FormatParameterInfo(d, p).value;
              && head <= r
              && (p.nullable <==> |r| == |head|)
              && (!p.nullable ==> r[|head|..] == " NOT NULL")
  {
    if GetSqlType(d, p.paramType).Success? {
      var head := d.escape(p.name) + " " + GetSqlType(d, p.paramType).value;
      var tail := if p.nullable then "" else " NOT NULL";
      assert FormatParameterInfo(d, p).value == head + tail;
      assert (head + tail)[|head|..] == tail;
    }
  }

  /** The column definitions in order, or the error of the first parameter whose type has no
      SQL type. */
  function FormatAll(d: Dialect, ps: seq<Param>): (r: Result<seq<string>, Exception>)
    ensures r.Success? <==> forall i :: 0 <= i < |ps| ==> FormatParameterInfo(d, ps[i]).Success?
    ensures r.Success? ==> |r.value| == |ps|
    ensures r.Success? ==> forall i :: 0 <= i < |ps| ==> r.value[i] == FormatParameterInfo(d, ps[i]).value
    ensures r.Failure? ==> exists i :: FirstFailure(d, ps, i) && r.error == FormatParameterInfo(d, ps[i]).error
    decreases |ps|
  {
    if |ps| == 0 then Success([])
    else
      var init := ps[..|ps| - 1];
      var front := FormatAll(d, init);
      assert forall i :: 0 <= i < |init| ==> ps[i] == init[i];
      if front.Failure? then
        var i :| FirstFailure(d, init, i) && front.error == FormatParameterInfo(d, init[i]).error;
        assert FirstFailure(d, ps, i);
        Failure(front.error)
      else
        var last := FormatParameterInfo(d, ps[|ps| - 1]);
        if last.Failure? then
          assert FirstFailure(d, ps, |ps| - 1);
          Failure(last.error)
        else
          Success(front.value + [last.value])
  }

  /** Parameter `i` is the first whose definition fails. */
  predicate FirstFailure(d: Dialect, ps: seq<Param>, i: int) {
    && 0 <= i < |ps|
    && FormatParameterInfo(d, ps[i]).Failure?
    && forall j :: 0 <= j < i ==> FormatParameterInfo(d, ps[j]).Success?
  }

  // ---------------------------------------------------------------- extra lines

  /** One (parameter, attribute) pair of `RecordParameters.SelectMany(...)`. */
  datatype Tagged = Tagged(param: Param, attribute: ParamAttribute)

  function Kind(t: Tagged): AttributeKind {
    KindOf(t.attribute)
  }

  /** Every parameter's attributes, parameter by parameter, each in the order reflection returns them. */
  function AttributePairs(ps: seq<Param>): seq<Tagged>
    decreases |ps|
  {
    if |ps| == 0 then []
    else
      var p := ps[|ps| - 1];
      AttributePairs(ps[..|ps| - 1]) + seq(|p.attributes|, j requires 0 <= j < |p.attributes| => Tagged(p, p.attributes[j]))
  }

  function UniqueGroupOf(t: Tagged): Option<int> {
    if t.attribute.Unique? then t.attribute.group else None
  }

  function ConditionOf(t: Tagged): string {
    if t.attribute.Check? then t.attribute.condition else ""
  }

  function CheckLine(d: Dialect, t: Tagged): string {
    "CHECK(" + d.escape(t.param.name) + " " + ConditionOf(t) + ")"
  }

  function ForeignKeyLine(d: Dialect, t: Tagged): string {
    var table := if t.attribute.ForeignKey? then t.attribute.table else "";
    var key := if t.attribute.ForeignKey? then t.attribute.key else "";
    "FOREIGN KEY(" + d.escape(t.param.name) + ") REFERENCES " + d.escape(table) + "(" + d.escape(key) + ")"
  }

  function TaggedNames(d: Dialect, items: seq<Tagged>): (r: seq<string>)
    ensures |r| == |items|
    ensures forall i :: 0 <= i < |items| ==> r[i] == d.escape(items[i].param.name)
  {
    seq(|items|, i requires 0 <= i < |items| => d.escape(items[i].param.name))
  }

  /** The lines of one inner `[Unique]` group: an ungrouped key is unique on its own, one line
      per parameter; a numbered group is unique in aggregate, one line for all its parameters. */
  function UniqueGroupLines(d: Dialect, g: Group<Option<int>, Tagged>): (r: seq<string>)
    ensures g.key.None? ==> |r| == |g.items|
    ensures g.key.Some? ==> |r| == 1
  {
    if g.key.None? then
      seq(|g.items|, i requires 0 <= i < |g.items| => "UNIQUE(" + d.escape(g.items[i].param.name) + ")")
    else
      ["UNIQUE(" + Join(", ", TaggedNames(d, g.items)) + ")"]
  }

  function UniqueBlocks(d: Dialect, gs: seq<Group<Option<int>, Tagged>>): seq<string>
    decreases |gs|
  {
    if |gs| == 0 then [] else UniqueBlocks(d, gs[..|gs| - 1]) + UniqueGroupLines(d, gs[|gs| - 1])
  }

  /** The `[Unique]` lines, grouped by their group number in order of first appearance. */
  function UniqueLines(d: Dialect, items: seq<Tagged>): seq<string> {
    UniqueBlocks(d, GroupBy(items, UniqueGroupOf))
  }

  /** The lines of one outer group; attributes of any other type contribute nothing. */
  function KindLines(d: Dialect, g: Group<AttributeKind, Tagged>): seq<string> {
    match g.key
    case UniqueKind => UniqueLines(d, g.items)
    case CheckKind => seq(|g.items|, i requires 0 <= i < |g.items| => CheckLine(d, g.items[i]))
    case ForeignKeyKind => seq(|g.items|, i requires 0 <= i < |g.items| => ForeignKeyLine(d, g.items[i]))
    case OtherKind(_) => []
  }

  function KindBlocks(d: Dialect, gs: seq<Group<AttributeKind, Tagged>>): seq<string>
    decreases |gs|
  {
    if |gs| == 0 then [] else KindBlocks(d, gs[..|gs| - 1]) + KindLines(d, gs[|gs| - 1])
  }

  /** `GetExtraLines`: the attribute pairs grouped by attribute type in order of first
      appearance, each group rendered in turn. */
  function ExtraLines(d: Dialect, ps: seq<Param>): seq<string> {
    KindBlocks(d, GroupBy(AttributePairs(ps), Kind))
  }

  /** The groups of `gs` are groups of `items`, with pairwise distinct keys. */
  ghost predicate GroupsOf<K, T>(gs: seq<Group<K, T>>, items: seq<T>, key: T -> K) {
    && (forall i, j :: 0 <= i < j < |gs| ==> gs[i].key != gs[j].key)
    && (forall i :: 0 <= i < |gs| ==> gs[i].items == Filter(items, key, gs[i].key))
  }

  ghost predicate HasKey<K, T>(gs: seq<Group<K, T>>, k: K) {
    exists i :: 0 <= i < |gs| && gs[i].key == k
  }

  lemma HasKeySnoc<K, T>(gs: seq<Group<K, T>>, k: K)
    requires |gs| > 0
    ensures HasKey(gs, k) <==> HasKey(gs[..|gs| - 1], k) || gs[|gs| - 1].key == k
  {
    if HasKey(gs, k) && gs[|gs| - 1].key != k {
      var i :| 0 <= i < |gs| && gs[i].key == k;
      assert gs[..|gs| - 1][i].key == k;
    }
  }

  function CountIf(b: bool, n: nat): nat {
    if b then n else 0
  }

  /** Over groups with distinct keys, each attribute type present contributes its lines once. */
  lemma {:induction false} KindBlocksCount(d: Dialect, pairs: seq<Tagged>, gs: seq<Group<AttributeKind, Tagged>>)
    requires GroupsOf(gs, pairs, Kind)
    ensures |KindBlocks(d, gs)|
            == CountIf(HasKey(gs, UniqueKind), |UniqueLines(d, Filter(pairs, Kind, UniqueKind))|)
             + CountIf(HasKey(gs, CheckKind), |Filter(pairs, Kind, CheckKind)|)
             + CountIf(HasKey(gs, ForeignKeyKind), |Filter(pairs, Kind, ForeignKeyKind)|)
    decreases |gs|
  {
    if |gs| > 0 {
      var init, g := gs[..|gs| - 1], gs[|gs| - 1];
      KindBlocksCount(d, pairs, init);
      HasKeySnoc(gs, UniqueKind);
      HasKeySnoc(gs, CheckKind);
      HasKeySnoc(gs, ForeignKeyKind);
      NewKey(gs);
    }
  }

  /** In groups with distinct keys, the last key is not among the earlier ones. */
  lemma NewKey<K, T>(gs: seq<Group<K, T>>)
    requires |gs| > 0
    requires forall i, j :: 0 <= i < j < |gs| ==> gs[i].key != gs[j].key
    ensures !HasKey(gs[..|gs| - 1], gs[|gs| - 1].key)
  {
  }

  /** A key without a group selects no items. */
  lemma EmptyUnlessGrouped<T, K>(items: seq<T>, key: T -> K, k: K)
    ensures !HasKey(GroupBy(items, key), k) ==> Filter(items, key, k) == []
  {
    var gs := GroupBy(items, key);
    var ks := Keys(items, key);
    FilterNonEmptyIffKey(items, key, k);
    if k in ks {
      var i :| 0 <= i < |ks| && ks[i] == k;
      assert gs[i].key == k;
    }
  }

  /** Over inner groups with distinct keys, the ungrouped keys give one line each and every
      numbered group one line. */
  lemma {:induction false} UniqueBlocksCount(d: Dialect, items: seq<Tagged>, gs: seq<Group<Option<int>, Tagged>>)
    requires GroupsOf(gs, items, UniqueGroupOf)
    ensures |UniqueBlocks(d, gs)|
            == CountIf(HasKey(gs, None), |Filter(items, UniqueGroupOf, None)|)
             + |gs| - CountIf(HasKey(gs, None), 1)
    decreases |gs|
  {
    if |gs| > 0 {
      var init, g := gs[..|gs| - 1], gs[|gs| - 1];
      UniqueBlocksCount(d, items, init);
      HasKeySnoc(gs, None);
      NewKey(gs);
    }
  }

  /** `[Unique]` writes one line per ungrouped key and one line per distinct group number. */
  lemma UniqueLinesCount(d: Dialect, items: seq<Tagged>)
    ensures var numbered := Keys(items, UniqueGroupOf);
            |UniqueLines(d, items)|
            == |Filter(items, UniqueGroupOf, None)| + |numbered| - CountIf(None in numbered, 1)
  {
    var gs := GroupBy(items, UniqueGroupOf);
    var ks := Keys(items, UniqueGroupOf);
    UniqueBlocksCount(d, items, gs);
    EmptyUnlessGrouped(items, UniqueGroupOf, None);
    if None in ks {
      var i :| 0 <= i < |ks| && ks[i] == None;
      assert gs[i].key == None;
    }
  }

  /** `GetExtraLines` writes one line per `[Check]` and per `[FK]` attribute, and the `[Unique]`
      lines; attributes of other types write nothing. */
  lemma ExtraLinesCount(d: Dialect, ps: seq<Param>)
    ensures var pairs := AttributePairs(ps);
            |ExtraLines(d, ps)|
            == |UniqueLines(d, Filter(pairs, Kind, UniqueKind))|
             + |Filter(pairs, Kind, CheckKind)|
             + |Filter(pairs, Kind, ForeignKeyKind)|
  {
    var pairs := AttributePairs(ps);
    var gs := GroupBy(pairs, Kind);
    KindBlocksCount(d, pairs, gs);
    EmptyUnlessGrouped(pairs, Kind, UniqueKind);
    EmptyUnlessGrouped(pairs, Kind, CheckKind);
    EmptyUnlessGrouped(pairs, Kind, ForeignKeyKind);
    assert Keys([], UniqueGroupOf) == [];
  }

  // ---------------------------------------------------------------- CREATE TABLE

  /** Every attribute of every parameter is among the attribute pairs. */
  lemma {:induction false} PairListed(ps: seq<Param>, p: nat, a: nat)
    requires p < |ps| && a < |ps[p].attributes|
    ensures Tagged(ps[p], ps[p].attributes[a]) in AttributePairs(ps)
    decreases |ps|
  {
    var last := ps[|ps| - 1];
    var tail := seq(|last.attributes|, j requires 0 <= j < |last.attributes| => Tagged(last, last.attributes[j]));
    assert AttributePairs(ps) == AttributePairs(ps[..|ps| - 1]) + tail;
    if p < |ps| - 1 {
      PairListed(ps[..|ps| - 1], p, a);
      assert ps[..|ps| - 1][p] == ps[p];
    } else {
      assert tail[a] == Tagged(ps[p], ps[p].attributes[a]);
    }
  }

  /** Every line of a group is among the lines of the groups rendered in turn. */
  lemma {:induction false} KindBlocksInclude(d: Dialect, gs: seq<Group<AttributeKind, Tagged>>, j: nat, line: string)
    requires j < |gs| && line in KindLines(d, gs[j])
    ensures line in KindBlocks(d, gs)
    decreases |gs|
  {
    var init, lines := gs[..|gs| - 1], KindLines(d, gs[|gs| - 1]);
    assert KindBlocks(d, gs) == KindBlocks(d, init) + lines;
    if j < |gs| - 1 {
      assert init[j] == gs[j];
      KindBlocksInclude(d, init, j, line);
    }
  }

  lemma {:induction false} UniqueBlocksInclude(d: Dialect, gs: seq<Group<Option<int>, Tagged>>, j: nat, line: string)
    requires j < |gs| && line in UniqueGroupLines(d, gs[j])
    ensures line in UniqueBlocks(d, gs)
    decreases |gs|
  {
    var init, lines := gs[..|gs| - 1], UniqueGroupLines(d, gs[|gs| - 1]);
    assert UniqueBlocks(d, gs) == UniqueBlocks(d, init) + lines;
    if j < |gs| - 1 {
      assert init[j] == gs[j];
      UniqueBlocksInclude(d, init, j, line);
    }
  }

  /** The group of `items` with the key of `x`, when `x` is one of `items`. */
  lemma GroupOfItem<T, K>(items: seq<T>, key: T -> K, x: T) returns (j: nat)
    requires x in items
    ensures j < |GroupBy(items, key)| && GroupBy(items, key)[j].key == key(x)
    ensures x in GroupBy(items, key)[j].items
  {
    var i :| 0 <= i < |items| && items[i] == x;
    var ks := Keys(items, key);
    assert key(items[i]) in ks;
    var k :| 0 <= k < |ks| && ks[k] == key(x);
    ItemInOwnGroup(items, key, i);
    j := k;
  }

  /** A pair in a group of its kind is rendered by that group. */
  lemma TaggedLineInGroup(d: Dialect, g: Group<AttributeKind, Tagged>, t: Tagged)
    requires t in g.items && g.key == Kind(t)
    ensures t.attribute.Check? ==> CheckLine(d, t) in KindLines(d, g)
    ensures t.attribute.ForeignKey? ==> ForeignKeyLine(d, t) in KindLines(d, g)
  {
    var m :| 0 <= m < |g.items| && g.items[m] == t;
    if t.attribute.Check? {
      assert KindLines(d, g)[m] == CheckLine(d, t);
    } else if t.attribute.ForeignKey? {
      assert KindLines(d, g)[m] == ForeignKeyLine(d, t);
    }
  }

  /** `[Check(condition)]` on a parameter yields `CHECK(<name> <condition>)` among the extra
      lines. */
  lemma CheckAttributeRendered(d: Dialect, ps: seq<Param>, p: nat, a: nat)
    requires p < |ps| && a < |ps[p].attributes| && ps[p].attributes[a].Check?
    ensures "CHECK(" + d.escape(ps[p].name) + " " + ps[p].attributes[a].condition + ")" in ExtraLines(d, ps)
  {
    var t := Tagged(ps[p], ps[p].attributes[a]);
    PairListed(ps, p, a);
    var j := GroupOfItem(AttributePairs(ps), Kind, t);
    var gs := GroupBy(AttributePairs(ps), Kind);
    TaggedLineInGroup(d, gs[j], t);
    KindBlocksInclude(d, gs, j, CheckLine(d, t));
  }

  /** `[FK(table, key)]` on a parameter yields
      `FOREIGN KEY(<name>) REFERENCES <table>(<key>)` among the extra lines. */
  lemma ForeignKeyAttributeRendered(d: Dialect, ps: seq<Param>, p: nat, a: nat)
    requires p < |ps| && a < |ps[p].attributes| && ps[p].attributes[a].ForeignKey?
    ensures var fk := ps[p].attributes[a];
            "FOREIGN KEY(" + d.escape(ps[p].name) + ") REFERENCES " + d.escape(fk.table) + "(" + d.escape(fk.key) + ")"
            in ExtraLines(d, ps)
  {
    var t := Tagged(ps[p], ps[p].attributes[a]);
    PairListed(ps, p, a);
    var j := GroupOfItem(AttributePairs(ps), Kind, t);
    var gs := GroupBy(AttributePairs(ps), Kind);
    TaggedLineInGroup(d, gs[j], t);
    KindBlocksInclude(d, gs, j, ForeignKeyLine(d, t));
  }

  /** An ungrouped `[Unique]` on a parameter yields `UNIQUE(<name>)` among the extra lines. */
  lemma UngroupedUniqueRendered(d: Dialect, ps: seq<Param>, p: nat, a: nat)
    requires p < |ps| && a < |ps[p].attributes| && ps[p].attributes[a] == Unique(None)
    ensures "UNIQUE(" + d.escape(ps[p].name) + ")" in ExtraLines(d, ps)
  {
    var t := Tagged(ps[p], ps[p].attributes[a]);
    PairListed(ps, p, a);
    var j := GroupOfItem(AttributePairs(ps), Kind, t);
    var gs := GroupBy(AttributePairs(ps), Kind);
    var items := gs[j].items;
    var k := GroupOfItem(items, UniqueGroupOf, t);
    var hs := GroupBy(items, UniqueGroupOf);
    var m :| 0 <= m < |hs[k].items| && hs[k].items[m] == t;
    assert UniqueGroupLines(d, hs[k])[m] == "UNIQUE(" + d.escape(ps[p].name) + ")";
    UniqueBlocksInclude(d, hs, k, "UNIQUE(" + d.escape(ps[p].name) + ")");
    assert KindLines(d, gs[j]) == UniqueLines(d, items);
    KindBlocksInclude(d, gs, j, "UNIQUE(" + d.escape(ps[p].name) + ")");
  }

  /** A numbered `[Unique(group)]` on a parameter yields one `UNIQUE(...)` line listing the
      escaped names of every `[Unique]` pair with that group number, in parameter order, this
      parameter among them. */
  lemma GroupedUniqueRendered(d: Dialect, ps: seq<Param>, p: nat, a: nat)
    requires p < |ps| && a < |ps[p].attributes|
    requires ps[p].attributes[a].Unique? && ps[p].attributes[a].group.Some?
    ensures var uniques := Filter(AttributePairs(ps), Kind, UniqueKind);
            var members := Filter(uniques, UniqueGroupOf, ps[p].attributes[a].group);
            && Tagged(ps[p], ps[p].attributes[a]) in members
            && "UNIQUE(" + Join(", ", TaggedNames(d, members)) + ")" in ExtraLines(d, ps)
  {
    var t := Tagged(ps[p], ps[p].attributes[a]);
    PairListed(ps, p, a);
    var j := GroupOfItem(AttributePairs(ps), Kind, t);
    var gs := GroupBy(AttributePairs(ps), Kind);
    var items := gs[j].items;
    assert items == Filter(AttributePairs(ps), Kind, UniqueKind);
    var k := GroupOfItem(items, UniqueGroupOf, t);
    var hs := GroupBy(items, UniqueGroupOf);
    var members := Filter(items, UniqueGroupOf, t.attribute.group);
    assert hs[k] == Group(t.attribute.group, members);
    var line := "UNIQUE(" + Join(", ", TaggedNames(d, members)) + ")";
    assert UniqueGroupLines(d, hs[k]) == [line];
    UniqueBlocksInclude(d, hs, k, line);
    assert KindLines(d, gs[j]) == UniqueLines(d, items);
    KindBlocksInclude(d, gs, j, line);
  }

  /** `PRIMARY KEY(<escaped key names>)`. */
  function PrimaryKeyClause(d: Dialect, rec: Record): string {
    "PRIMARY KEY(" + EscapedNames(d, PKs(rec)) + ")"
  }

  /** The CREATE TABLE statement as a list of clauses: every column definition, the primary
      key, the attribute-derived lines (`extra`) and the record's raw SQL lines (`more`),
      separated by ", ". */
  function CreateTableSql(tableName: string, defs: seq<string>, key: string, extra: seq<string>, more: seq<string>): string {
    "CREATE TABLE IF NOT EXISTS " + tableName + " (" + Join(", ", defs + [key] + extra + more) + ");"
  }

  /** Each definition ended by `sep`, then the key, then each extra line led by `sep`: the
      `sep`-joined clause list. */
  lemma {:induction false} ClauseTextIsJoin(defs: seq<string>, key: string, extra: seq<string>, more: seq<string>, sep: string)
    ensures TerminatedText(defs, sep) + key + PrefixedText(sep, extra) + PrefixedText(sep, more)
            == Join(sep, defs + [key] + extra + more)
  {
    TerminatedThenJoin(defs, sep, [key]);
    assert TerminatedText(defs, sep) + key == Join(sep, defs + [key]);
    JoinThenPrefixed(sep, defs + [key], extra);
    JoinThenPrefixed(sep, defs + [key] + extra, more);
  }

  /** The error `FormatAll` reports is the first failing parameter's. */
  lemma FirstFailureError(d: Dialect, ps: seq<Param>, i: int)
    requires FirstFailure(d, ps, i)
    ensures FormatAll(d, ps) == Failure(FormatParameterInfo(d, ps[i]).error)
  {
    assert FormatAll(d, ps).Failure? by {
      assert !FormatParameterInfo(d, ps[i]).Success?;
    }
    var e :| FirstFailure(d, ps, e) && FormatAll(d, ps).error == FormatParameterInfo(d, ps[e]).error;
    assert FormatParameterInfo(d, ps[e]).Failure? && FormatParameterInfo(d, ps[i]).Failure?;
  }

  /** One more successful definition extends the list by it. */
  lemma FormatAllSnoc(d: Dialect, ps: seq<Param>, i: nat)
    requires i < |ps|
    requires FormatAll(d, ps[..i]).Success? && FormatParameterInfo(d, ps[i]).Success?
    ensures FormatAll(d, ps[..i + 1]) == Success(FormatAll(d, ps[..i]).value + [FormatParameterInfo(d, ps[i]).value])
  {
    assert ps[..i + 1][..i] == ps[..i];
  }

  /** The first failure after a prefix that formats is the error of the whole list. */
  lemma FailureAfterPrefix(d: Dialect, ps: seq<Param>, i: nat)
    requires i < |ps|
    requires FormatAll(d, ps[..i]).Success? && FormatParameterInfo(d, ps[i]).Failure?
    ensures FormatAll(d, ps) == Failure(FormatParameterInfo(d, ps[i]).error)
  {
    assert forall j :: 0 <= j < i ==> ps[..i][j] == ps[j];
    FirstFailureError(d, ps, i);
  }

  /** One more definition extends the column text by it and ", ". */
  lemma ColumnTextStep(d: Dialect, ps: seq<Param>, i: nat)
    requires i < |ps|
    requires FormatAll(d, ps[..i]).Success? && FormatParameterInfo(d, ps[i]).Success?
    ensures FormatAll(d, ps[..i + 1]).Success?
    ensures TerminatedText(FormatAll(d, ps[..i + 1]).value, ", ")
            == TerminatedText(FormatAll(d, ps[..i]).value, ", ") + FormatParameterInfo(d, ps[i]).value + ", "
  {
    FormatAllSnoc(d, ps, i);
    TerminatedTextSnoc(FormatAll(d, ps[..i]).value, ", ", FormatParameterInfo(d, ps[i]).value);
  }

  /** The column-definition loop of `CreateDB`: each definition followed by ", ", or the error
      of the first parameter whose type has no SQL type. */
  method EmitColumnDefinitions(d: Dialect, ps: seq<Param>) returns (r: Result<string, Exception>)
    ensures FormatAll(d, ps).Failure? ==> r == Failure(FormatAll(d, ps).error)
    ensures FormatAll(d, ps).Success? ==> r == Success(TerminatedText(FormatAll(d, ps).value, ", "))
  {
    var text := "";
    var i := 0;
    while i < |ps|
      invariant 0 <= i <= |ps|
      invariant FormatAll(d, ps[..i]).Success?
      invariant text == TerminatedText(FormatAll(d, ps[..i]).value, ", ")
    {
      var f := FormatParameterInfo(d, ps[i]);
      if f.Failure? {
        FailureAfterPrefix(d, ps, i);
        return Failure(f.error);
      }
      ColumnTextStep(d, ps, i);
      text := text + f.value + ", ";
      i := i + 1;
    }
    assert ps[..i] == ps;
    r := Success(text);
  }

  /** The extra-line loops of `CreateDB`: each line led by ", ". */
  method EmitLines(lines: seq<string>) returns (text: string)
    ensures text == PrefixedText(", ", lines)
  {
    text := "";
    var i := 0;
    while i < |lines|
      invariant 0 <= i <= |lines|
      invariant text == PrefixedText(", ", lines[..i])
    {
      assert lines[..i + 1] == lines[..i] + [lines[i]];
      PrefixedTextSnoc(", ", lines[..i], lines[i]);
      text := text + ", " + lines[i];
      i := i + 1;
    }
    assert lines[..i] == lines;
  }

  /** `CreateDB`: the statement is built piece by piece in a `StringBuilder`; a parameter
      whose type has no SQL type makes it throw. */
  method CreateDB(d: Dialect, rec: Record) returns (r: Result<string, Exception>)
    ensures FormatAll(d, rec.parameters).Failure? ==> r == Failure(FormatAll(d, rec.parameters).error)
    ensures FormatAll(d, rec.parameters).Success? ==>
              r == Success(CreateTableSql(TableName(d, rec), FormatAll(d, rec.parameters).value,
                                          PrimaryKeyClause(d, rec), ExtraLines(d, rec.parameters), rec.attribute.sqlLines))
  {
    var head := "CREATE TABLE IF NOT EXISTS " + TableName(d, rec) + " (";
    var defsText := EmitColumnDefinitions(d, rec.parameters);
    if defsText.Failure? {
      return Failure(defsText.error);
    }
    var key := PrimaryKeyClause(d, rec);
    var extra := ExtraLines(d, rec.parameters);
    var extraText := EmitLines(extra);
    var moreText := EmitLines(rec.attribute.sqlLines);
    var body := defsText.value + key + extraText + moreText;
    var defs, more := FormatAll(d, rec.parameters).value, rec.attribute.sqlLines;
    ClauseTextIsJoin(defs, key, extra, more, ", ");
    r := Success(head + body + ");");
  }

  // ---------------------------------------------------------------- statements

  function DropSql(d: Dialect, rec: Record, cascade: bool): string {
    "DROP TABLE IF EXISTS " + TableName(d, rec) + (if cascade then " CASCADE" else "") + ";"
  }

  /** `Drop`: `DROP TABLE IF EXISTS <table>;`, with ` CASCADE` before the `;` exactly when
      asked for; the flag changes nothing else. */
  lemma DropCascadeOnlyAddsKeyword(d: Dialect, rec: Record)
    ensures var plain := DropSql(d, rec, false);
            && plain == "DROP TABLE IF EXISTS " + TableName(d, rec) + ";"
            && DropSql(d, rec, true) == plain[..|plain| - 1] + " CASCADE;"
  {
    var plain := DropSql(d, rec, false);
    var head := "DROP TABLE IF EXISTS " + TableName(d, rec);
    assert plain == head + ";";
    assert plain[..|plain| - 1] == head;
  }

  function SelectAllSql(d: Dialect, rec: Record): string {
    "SELECT * FROM " + TableName(d, rec) + ";"
  }

  /** At run time the select-all statement names the table after the record type, and the
      conditional select is that statement with ` WHERE <condition>` inserted before its
      semicolon, the condition copied verbatim. */
  lemma SelectWhereExtendsSelectAll(d: Dialect, rec: Record, condition: string)
    ensures SelectAllSql(d, rec) == "SELECT * FROM " + d.escape(rec.typeName) + ";"
    ensures var all := SelectAllSql(d, rec);
            SelectWhereSql(d, rec, condition) == all[..|all| - 1] + " WHERE " + condition + ";"
  {
    var all := SelectAllSql(d, rec);
    assert all[..|all| - 1] == "SELECT * FROM " + TableName(d, rec);
  }

  /** `Select(sql, condition, parameters)`: the caller's condition after WHERE. */
  function SelectWhereSql(d: Dialect, rec: Record, condition: string): string {
    "SELECT * FROM " + TableName(d, rec) + " WHERE " + condition + ";"
  }

  /** `Select(sql, conditional)`: the built condition is passed on unchanged. */
  function SelectConditionalSql(d: Dialect, rec: Record, built: string): string {
    SelectWhereSql(d, rec, built)
  }

  /** `Delete(sql, condition, parameters)`. */
  function DeleteWhereSql(d: Dialect, rec: Record, condition: string): string {
    "DELETE FROM " + TableName(d, rec) + " WHERE " + condition + ";"
  }

  /** `Delete(sql, conditional)`: the built condition gets a ";" before it is passed on. */
  function DeleteConditionalSql(d: Dialect, rec: Record, built: string): string {
    DeleteWhereSql(d, rec, built + ";")
  }

  /** The instance `Delete`: the record's own key values select the row. */
  function DeleteRecordSql(d: Dialect, rec: Record): string {
    "DELETE FROM " + TableName(d, rec) + " WHERE " + Join(" AND ", PKStrings(d, rec)) + ";"
  }

  /** `INSERT INTO T (<all names>) VALUES(@0, ..) `, shared by insert and upsert. */
  function InsertHeadText(d: Dialect, rec: Record): string {
    "INSERT INTO " + TableName(d, rec) + " (" + EscapedNames(d, rec.parameters) + ") "
    + "VALUES(" + Join(", ", Placeholders(|rec.parameters|)) + ") "
  }

  function InsertSql(d: Dialect, rec: Record): string {
    InsertHeadText(d, rec) + "ON CONFLICT(" + EscapedNames(d, PKs(rec)) + ") DO NOTHING;"
  }

  function UpdateSql(d: Dialect, rec: Record): string {
    "UPDATE " + TableName(d, rec) + " "
    + "SET " + Join(", ", DataStrings(d, rec)) + " "
    + "WHERE " + Join(" AND ", PKStrings(d, rec)) + ";"
  }

  function UpsertSql(d: Dialect, rec: Record): string {
    InsertHeadText(d, rec) + "ON CONFLICT(" + EscapedNames(d, PKs(rec)) + ") DO UPDATE "
    + "SET " + Join(", ", DataStrings(d, rec)) + ";"
  }

  predicate EndsWith(s: string, suffix: string) {
    |suffix| <= |s| && s[|s| - |suffix|..] == suffix
  }

  /** The conditional delete ends in ";;": it is the plain delete of the same condition with
      one more ";", while the conditional select passes the condition through unchanged. */
  lemma ConditionalDeleteDoublesSemicolon(d: Dialect, rec: Record, built: string)
    ensures DeleteConditionalSql(d, rec, built) == DeleteWhereSql(d, rec, built) + ";"
    ensures EndsWith(DeleteConditionalSql(d, rec, built), built + ";;")
    ensures EndsWith(SelectConditionalSql(d, rec, built), built + ";")
  {
    var s := DeleteConditionalSql(d, rec, built);
    assert s == "DELETE FROM " + TableName(d, rec) + " WHERE " + (built + ";;");
  }

  /** The instance delete and the update select the row by the same WHERE clause, the key
      columns compared with their own placeholders. */
  lemma DeleteAndUpdateShareWhere(d: Dialect, rec: Record)
    ensures DeleteRecordSql(d, rec) == DeleteWhereSql(d, rec, Join(" AND ", PKStrings(d, rec)))
    ensures EndsWith(DeleteRecordSql(d, rec), " WHERE " + Join(" AND ", PKStrings(d, rec)) + ";")
    ensures EndsWith(UpdateSql(d, rec), " WHERE " + Join(" AND ", PKStrings(d, rec)) + ";")
  {
    var w := Join(" AND ", PKStrings(d, rec));
    EndsWithWhere("DELETE FROM " + TableName(d, rec), w);
    SpaceBeforeWhere("UPDATE " + TableName(d, rec) + " " + "SET " + Join(", ", DataStrings(d, rec)), w);
    EndsWithWhere("UPDATE " + TableName(d, rec) + " " + "SET " + Join(", ", DataStrings(d, rec)), w);
  }

  lemma EndsWithWhere(p: string, w: string)
    ensures EndsWith(p + " WHERE " + w + ";", " WHERE " + w + ";")
  {
    assert p + " WHERE " + w + ";" == p + (" WHERE " + w + ";");
  }

  lemma SpaceBeforeWhere(p: string, w: string)
    ensures p + " " + "WHERE " + w + ";" == p + " WHERE " + w + ";"
  {
    assert " " + "WHERE " == " WHERE ";
    assert p + " " + "WHERE " == p + " WHERE ";
  }

  /** Insert and upsert are the same text up to the conflict action: insert does nothing on a
      key conflict, upsert sets the data columns from their placeholders. */
  lemma InsertAndUpsertShareTarget(d: Dialect, rec: Record)
    ensures var target := InsertHeadText(d, rec) + "ON CONFLICT(" + EscapedNames(d, PKs(rec)) + ") DO ";
            && InsertSql(d, rec) == target + "NOTHING;"
            && UpsertSql(d, rec) == target + "UPDATE SET " + Join(", ", DataStrings(d, rec)) + ";"
  {
    ConflictActions(InsertHeadText(d, rec) + "ON CONFLICT(" + EscapedNames(d, PKs(rec)), Join(", ", DataStrings(d, rec)));
  }

  lemma ConflictActions(p: string, j: string)
    ensures p + ") DO NOTHING;" == p + ") DO " + "NOTHING;"
    ensures p + ") DO UPDATE " + "SET " + j + ";" == p + ") DO " + "UPDATE SET " + j + ";"
  {
    assert ") DO NOTHING;" == ") DO " + "NOTHING;";
    assert p + ") DO NOTHING;" == p + (") DO " + "NOTHING;");
    assert ") DO UPDATE " + "SET " == ") DO " + "UPDATE SET ";
    assert p + ") DO UPDATE " + "SET " == p + (") DO " + "UPDATE SET ");
  }
}
