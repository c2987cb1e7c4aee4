/** The table description the ahead-of-time generator works from: its columns, how many of
    them (from the left) form the primary key, the unique-key maps and raw SQL lines. */
module TableDefinition {
  import opened Wrappers
  import opened Text

  /** One column: its name, and the SQL and C# type names its type string maps to. */
  datatype Column = Column(name: string, sqlTypeName: string, csharpTypeName: string)

  /** The primary-key count is whatever the definition said (possibly 0 or negative), and the
      unique-key maps hold column indices that nobody has range-checked. */
  datatype TableDef = TableDef(
    tableName: string,
    columns: seq<Column>,
    primaryKeyCount: int,
    uniqueKeyMaps: seq<seq<int>>,
    sqlLines: seq<string>)

  function KeyCount(td: TableDef): nat {
    Clamp(td.primaryKeyCount, |td.columns|)
  }

  /** `Columns.Take(PrimaryKeyCount)`. */
  function PrimaryKeys(td: TableDef): seq<Column> {
    td.columns[..KeyCount(td)]
  }

  /** `Columns.Skip(PrimaryKeyCount)`. */
  function DataColumns(td: TableDef): seq<Column> {
    td.columns[KeyCount(td)..]
  }

  function Names(cols: seq<Column>): (r: seq<string>)
    ensures |r| == |cols|
    ensures forall i :: 0 <= i < |cols| ==> r[i] == cols[i].name
  {
    seq(|cols|, i requires 0 <= i < |cols| => cols[i].name)
  }

  /** The key columns followed by the data columns are exactly the columns, whatever the
      primary-key count says; the keys are the leading ones. */
  lemma ProjectionsPartition(td: TableDef)
    ensures PrimaryKeys(td) + DataColumns(td) == td.columns
    ensures td.primaryKeyCount >= |td.columns| ==> DataColumns(td) == []
    ensures td.primaryKeyCount <= 0 ==> PrimaryKeys(td) == []
    ensures 0 <= td.primaryKeyCount <= |td.columns| ==> |PrimaryKeys(td)| == td.primaryKeyCount
  {
    assert td.columns == td.columns[..KeyCount(td)] + td.columns[KeyCount(td)..];
  }

  /** `UniqueKeys`: each unique-key map's indices looked up in `Columns`; an index outside
      the column list makes the lookup throw. */
  function UniqueKeys(td: TableDef): (r: Result<seq<seq<Column>>, Exception>)
    ensures r.Success? <==> forall m, i :: 0 <= m < |td.uniqueKeyMaps| && 0 <= i < |td.uniqueKeyMaps[m]| ==>
                                0 <= td.uniqueKeyMaps[m][i] < |td.columns|
    ensures r.Failure? ==> r.error == IndexOutOfRangeException
    ensures r.Success? ==> |r.value| == |td.uniqueKeyMaps|
    ensures r.Success? ==> forall m :: 0 <= m < |r.value| ==> |r.value[m]| == |td.uniqueKeyMaps[m]|
    ensures r.Success? ==> forall m, i :: 0 <= m < |r.value| && 0 <= i < |r.value[m]| ==>
                                r.value[m][i] == td.columns[td.uniqueKeyMaps[m][i]]
  {
    LookupAll(td.columns, td.uniqueKeyMaps)
  }

  function LookupAll(columns: seq<Column>, maps: seq<seq<int>>): (r: Result<seq<seq<Column>>, Exception>)
    ensures r.Success? <==> forall m, i :: 0 <= m < |maps| && 0 <= i < |maps[m]| ==> 0 <= maps[m][i] < |columns|
    ensures r.Failure? ==> r.error == IndexOutOfRangeException
    ensures r.Success? ==> |r.value| == |maps|
    ensures r.Success? ==> forall m :: 0 <= m < |r.value| ==> |r.value[m]| == |maps[m]|
    ensures r.Success? ==> forall m, i :: 0 <= m < |r.value| && 0 <= i < |r.value[m]| ==>
                                r.value[m][i] == columns[maps[m][i]]
    decreases |maps|
  {
    if |maps| == 0 then Success([])
    else
      var first := Lookup(columns, maps[0]);
      var rest := LookupAll(columns, maps[1..]);
      if first.Failure? then Failure(IndexOutOfRangeException)
      else if rest.Failure? then
        assert exists m, i :: 0 <= m < |maps| - 1 && 0 <= i < |maps[1..][m]| && !(0 <= maps[1..][m][i] < |columns|);
        Failure(IndexOutOfRangeException)
      else
        Success([first.value] + rest.value)
  }

  function Lookup(columns: seq<Column>, map1: seq<int>): (r: Result<seq<Column>, Exception>)
    ensures r.Success? <==> forall i :: 0 <= i < |map1| ==> 0 <= map1[i] < |columns|
    ensures r.Success? ==> |r.value| == |map1| && forall i :: 0 <= i < |map1| ==> r.value[i] == columns[map1[i]]
  {
    if forall i :: 0 <= i < |map1| ==> 0 <= map1[i] < |columns| then
      Success(seq(|map1|, i requires 0 <= i < |map1| => columns[map1[i]]))
    else
      Failure(IndexOutOfRangeException)
  }

  // ---------------------------------------------------------------- reading the definition

  /** The primary-key count setting: `int.TryParse` leaves 0 behind when the text is not a number. */
  function ParsePrimaryKeyCount(value: string): (n: int)
    ensures TryParseInt32(value).Some? ==> n == TryParseInt32(value).value
    ensures TryParseInt32(value).None? ==> n == 0
  {
    TryParseInt32(value).GetOr(0)
  }

  /** Index of the first column called `name`, if any. */
  function IndexOfName(columns: seq<Column>, name: string): (r: Option<nat>)
    ensures r.Some? ==> r.value < |columns| && columns[r.value].name == name
    ensures r.Some? ==> forall j :: 0 <= j < r.value ==> columns[j].name != name
    ensures r.None? <==> forall j :: 0 <= j < |columns| ==> columns[j].name != name
    decreases |columns|
  {
    if |columns| == 0 then None
    else if columns[0].name == name then Some(0)
    else
      match IndexOfName(columns[1..], name)
      case None => None
      case Some(i) => Some(i + 1)
  }

  /** One trimmed token of a unique-key setting: a number stands for itself (no range check),
      otherwise the first column with exactly that name stands for its index, and anything
      else contributes nothing. */
  function ResolveToken(columns: seq<Column>, token: string): (r: seq<int>)
    ensures |r| <= 1
    ensures TryParseInt32(token).Some? ==> r == [TryParseInt32(token).value]
    ensures TryParseInt32(token).None? && |r| == 1 ==>
              0 <= r[0] < |columns| && columns[r[0]].name == token &&
              forall j :: 0 <= j < r[0] ==> columns[j].name != token
    ensures TryParseInt32(token).None? ==>
              (|r| == 0 <==> forall j :: 0 <= j < |columns| ==> columns[j].name != token)
  {
    match TryParseInt32(token)
    case Some(i) => [i]
    case None =>
      match IndexOfName(columns, token)
      case Some(i) => [i]
      case None => []
  }

  function ResolveTokens(columns: seq<Column>, tokens: seq<string>): (r: seq<int>)
    ensures |r| <= |tokens|
    decreases |tokens|
  {
    if |tokens| == 0 then [] else ResolveToken(columns, tokens[0]) + ResolveTokens(columns, tokens[1..])
  }

  /** A unique-key setting's value: split on ',', each piece trimmed and resolved. */
  function ResolveUniqueKeyMap(columns: seq<Column>, value: string): seq<int> {
    ResolveTokens(columns, TrimmedPieces(value))
  }

  /** Every index a unique-key setting produces came from a numeric token or names a column
      whose name is one of the tokens; the map never has more entries than tokens. */
  lemma {:induction false} ResolvedIndicesJustified(columns: seq<Column>, tokens: seq<string>)
    ensures |ResolveTokens(columns, tokens)| <= |tokens|
    ensures forall x :: x in ResolveTokens(columns, tokens) ==>
              (exists t :: t in tokens && TryParseInt32(t) == Some(x)) ||
              (0 <= x < |columns| && columns[x].name in tokens)
    decreases |tokens|
  {
    if |tokens| > 0 {
      ResolvedIndicesJustified(columns, tokens[1..]);
      var first := ResolveToken(columns, tokens[0]);
      forall x | x in ResolveTokens(columns, tokens)
        ensures (exists t :: t in tokens && TryParseInt32(t) == Some(x)) ||
                (0 <= x < |columns| && columns[x].name in tokens)
      {
        if x in first {
          assert tokens[0] in tokens;
        } else {
          assert x in ResolveTokens(columns, tokens[1..]);
          if exists t :: t in tokens[1..] && TryParseInt32(t) == Some(x) {
            var t :| t in tokens[1..] && TryParseInt32(t) == Some(x);
            assert t in tokens;
          } else {
            assert columns[x].name in tokens[1..];
          }
        }
      }
    }
  }

  /** Tokens that resolve one-for-one: each numeric token or column name yields exactly one
      index, in token order. */
  lemma {:induction false} ResolveTokensInOrder(columns: seq<Column>, tokens: seq<string>)
    requires forall i :: 0 <= i < |tokens| ==> |ResolveToken(columns, tokens[i])| == 1
    ensures |ResolveTokens(columns, tokens)| == |tokens|
    ensures forall i :: 0 <= i < |tokens| ==> ResolveTokens(columns, tokens)[i] == ResolveToken(columns, tokens[i])[0]
    decreases |tokens|
  {
    if |tokens| > 0 {
      ResolveTokensInOrder(columns, tokens[1..]);
    }
  }

  /** A primary-key count written as `int.ToString` writes it reads back as itself. */
  lemma PrimaryKeyCountRoundTrip(n: int)
    requires Int32Min <= n <= Int32Max
    ensures ParsePrimaryKeyCount(Int32ToString(n)) == n
  {
    ParseInt32RoundTrip(n);
  }

  /** The column names at `idx`, in order. */
  function NamesAt(columns: seq<Column>, idx: seq<nat>): (r: seq<string>)
    requires forall i :: 0 <= i < |idx| ==> idx[i] < |columns|
    ensures |r| == |idx|
  {
    seq(|idx|, i requires 0 <= i < |idx| => columns[idx[i]].name)
  }

  /** A name a unique-key setting can list: no ',', no surrounding white space, not a number. */
  predicate ListableName(name: string) {
    ',' !in name && Trim(name) == name && TryParseInt32(name).None?
  }

  /** Writing a unique key as its column names separated by ',' and resolving the setting gives
      back the column indices, when the column names are distinct and listable. */
  lemma UniqueKeyMapOfNames(columns: seq<Column>, idx: seq<nat>)
    requires |idx| > 0 && forall i :: 0 <= i < |idx| ==> idx[i] < |columns|
    requires forall a, b :: 0 <= a < b < |columns| ==> columns[a].name != columns[b].name
    requires forall a :: 0 <= a < |columns| ==> ListableName(columns[a].name)
    ensures ResolveUniqueKeyMap(columns, Join(",", NamesAt(columns, idx))) == idx
  {
    ListedNamesSplit(columns, idx);
    ResolveNamesAt(columns, idx);
  }

  /** The names at `idx`, resolved one by one, give `idx` back. */
  lemma ResolveNamesAt(columns: seq<Column>, idx: seq<nat>)
    requires forall i :: 0 <= i < |idx| ==> idx[i] < |columns|
    requires forall a, b :: 0 <= a < b < |columns| ==> columns[a].name != columns[b].name
    requires forall a :: 0 <= a < |columns| ==> ListableName(columns[a].name)
    ensures ResolveTokens(columns, NamesAt(columns, idx)) == idx
  {
    ListedNamesResolve(columns, idx);
    ResolveTokensExact(columns, NamesAt(columns, idx), idx);
  }

  /** Tokens that each resolve to exactly one given index resolve, together, to those indices. */
  lemma {:induction false} ResolveTokensExact(columns: seq<Column>, tokens: seq<string>, idx: seq<nat>)
    requires |tokens| == |idx|
    requires forall i :: 0 <= i < |tokens| ==> ResolveToken(columns, tokens[i]) == [idx[i]]
    ensures ResolveTokens(columns, tokens) == idx
    decreases |tokens|
  {
    if |tokens| > 0 {
      ResolveTokensExact(columns, tokens[1..], idx[1..]);
      assert idx == [idx[0]] + idx[1..];
    }
  }

  /** Each listed name resolves to its own column. */
  lemma ListedNamesResolve(columns: seq<Column>, idx: seq<nat>)
    requires forall i :: 0 <= i < |idx| ==> idx[i] < |columns|
    requires forall a, b :: 0 <= a < b < |columns| ==> columns[a].name != columns[b].name
    requires forall a :: 0 <= a < |columns| ==> ListableName(columns[a].name)
    ensures forall i :: 0 <= i < |idx| ==> ResolveToken(columns, NamesAt(columns, idx)[i]) == [idx[i]]
  {
    forall i | 0 <= i < |idx|
      ensures ResolveToken(columns, NamesAt(columns, idx)[i]) == [idx[i]]
    {
      ResolveListedName(columns, idx[i]);
    }
  }

  /** The pieces of a setting between the commas, each trimmed. */
  function TrimmedPieces(value: string): seq<string> {
    var pieces := Split(value, ',');
    seq(|pieces|, i requires 0 <= i < |pieces| => Trim(pieces[i]))
  }

  lemma ListedNamesSplit(columns: seq<Column>, idx: seq<nat>)
    requires |idx| > 0 && forall i :: 0 <= i < |idx| ==> idx[i] < |columns|
    requires forall a :: 0 <= a < |columns| ==> ListableName(columns[a].name)
    ensures TrimmedPieces(Join(",", NamesAt(columns, idx))) == NamesAt(columns, idx)
  {
    var names := NamesAt(columns, idx);
    forall i | 0 <= i < |names|
      ensures ',' !in names[i] && Trim(names[i]) == names[i]
    {
      assert ListableName(columns[idx[i]].name);
    }
    PiecesOfJoin(names);
  }

  /** Splitting comma-free, already trimmed names joined by ',' and trimming the pieces gives
      the names back. */
  lemma PiecesOfJoin(names: seq<string>)
    requires |names| > 0
    requires forall i :: 0 <= i < |names| ==> ',' !in names[i] && Trim(names[i]) == names[i]
    ensures TrimmedPieces(Join(",", names)) == names
  {
    assert "," == [','];
    JoinSplit(names, ',');
    assert Split(Join(",", names), ',') == names;
  }

  /** A listable name of distinct column names resolves to its own column. */
  lemma ResolveListedName(columns: seq<Column>, i: nat)
    requires i < |columns|
    requires forall a, b :: 0 <= a < b < |columns| ==> columns[a].name != columns[b].name
    requires ListableName(columns[i].name)
    ensures ResolveToken(columns, columns[i].name) == [i]
  {
    var r := IndexOfName(columns, columns[i].name);
    assert r.Some?;
  }
}
