/** The PostgreSQL boundary: how a server string becomes host and port, the statement that
    selects the schema, and how a parameter value is made acceptable to the driver. */
module PostgreSql {
  import opened Wrappers
  import opened Text
  import PowerSet

  // ---------------------------------------------------------------- Connect

  /** What `Connect` gives the connection-string builder: the host, and the port when one
      parsed (otherwise the builder keeps its default). */
  datatype Endpoint = Endpoint(host: string, port: Option<int>)

  /** The scheme test of `Connect`: the part before the first ':' is `http` or `https`, in any
      letter case. */
  predicate IsHttpScheme(prefix: string) {
    AsciiLower(prefix) == "http" || AsciiLower(prefix) == "https"
  }

  /** `Connect`'s handling of `Server`: with a ':' it is split there, an http(s) scheme is
      refused, the first part is the host and the second, when it parses as a 32-bit integer,
      the port; without a ':' the whole string is the host. */
  function ParseServer(server: string): (r: Result<Endpoint, Exception>)
    ensures r.Failure? <==> ':' in server && IsHttpScheme(server[..IndexOfChar(server, ':')])
    ensures r.Failure? ==> r.error == ArgumentException("Postgres connections are not http connections.")
    ensures r.Success? ==> ':' !in r.value.host
    ensures r.Success? && ':' in server ==> r.value.host == server[..IndexOfChar(server, ':')]
    ensures r.Success? && ':' !in server ==> r.value == Endpoint(server, None)
  {
    if ':' in server then
      var parts := Split(server, ':');
      if IsHttpScheme(parts[0]) then Failure(ArgumentException("Postgres connections are not http connections."))
      else Success(Endpoint(parts[0], TryParseInt32(parts[1])))
    else
      Success(Endpoint(server, None))
  }

  /** A host with a port written after it comes back as that host and port. */
  lemma HostPortRoundTrip(host: string, port: int)
    requires ':' !in host && !IsHttpScheme(host)
    requires Int32Min <= port <= Int32Max
    ensures ParseServer(host + ":" + Int32ToString(port)) == Success(Endpoint(host, Some(port)))
  {
    var p := Int32ToString(port);
    assert ':' !in p by {
      if port < 0 {
        assert p == "-" + NatToString(-port);
      }
    }
    SplitAfterFirst(host, ':', p);
    assert host + ":" + p == host + [':'] + p;
    ParseInt32RoundTrip(port);
  }

  /** `host:port` with one ':' gives the host and whatever `int.TryParse` makes of the port
      text: white space, a sign and leading zeros are accepted, and a port that does not parse
      or does not fit in 32 bits leaves the port unset. */
  lemma TwoSegmentServer(host: string, port: string)
    requires ':' !in host && ':' !in port && !IsHttpScheme(host)
    ensures ParseServer(host + ":" + port) == Success(Endpoint(host, TryParseInt32(port)))
  {
    assert host + ":" + port == host + [':'] + port;
    SplitAfterFirst(host, ':', port);
  }

  /** A port text that is not a number leaves the port unset. */
  lemma NonNumericPortUnset()
    ensures ParseServer("db:abc") == Success(Endpoint("db", None))
  {
    assert AsciiLower("db") == "db";
    assert "db:abc" == "db" + ":" + "abc";
    TwoSegmentServer("db", "abc");
    RejectedTexts();
  }

  /** White space before the port number does not stop it from parsing. */
  lemma SpacedPortParses()
    ensures ParseServer("db: 5432") == Success(Endpoint("db", Some(5432)))
  {
    assert AsciiLower("db") == "db";
    assert "db: 5432" == "db" + ":" + " 5432";
    TwoSegmentServer("db", " 5432");
    SpacedNumberParses();
  }

  /** Only the first two segments matter: anything after a second ':' is ignored, and a port
      that does not parse leaves the port unset. */
  lemma ExtraSegmentsIgnored(host: string, port: string, rest: string)
    requires ':' !in host && ':' !in port && !IsHttpScheme(host)
    ensures ParseServer(host + ":" + port + ":" + rest) == Success(Endpoint(host, TryParseInt32(port)))
  {
    var colon := ":";
    assert colon == [':'];
    ConcatAssoc(host + colon + port, colon, rest);
    ConcatAssoc(host + colon, port, colon + rest);
    ConcatAssoc(port, colon, rest);
    SplitAfterFirst(port, ':', rest);
    SplitAfterFirst(host, ':', port + colon + rest);
  }

  // ---------------------------------------------------------------- SetSchema

  /** `SetSchema`: with a schema, create it if needed and put it (as the name parser gives it,
      between double quotes) on the search path; without one, restore the default path. */
  function SetSchemaSql(schema: Option<string>, nameParser: string -> string): string {
    match schema
    case Some(s) =>
      "CREATE SCHEMA IF NOT EXISTS " + Quote(nameParser(s)) + "; SET search_path to " + Quote(nameParser(s)) + ";"
    case None =>
      "SET search_path to \"$user\", public;"
  }

  /** Only a named schema is created; without one the statement restores the default search
      path, the user's own schema and then `public`. */
  lemma OnlyNamedSchemaCreated(schema: Option<string>, nameParser: string -> string)
    ensures "CREATE SCHEMA IF NOT EXISTS " <= SetSchemaSql(schema, nameParser) <==> schema.Some?
    ensures schema.None? ==> SetSchemaSql(schema, nameParser) == "SET search_path to \"$user\", public;"
  {
    if schema.None? {
      assert SetSchemaSql(schema, nameParser)[0] == 'S';
    } else {
      var q := Quote(nameParser(schema.value));
      var rest := q + "; SET search_path to " + q + ";";
      assert SetSchemaSql(schema, nameParser) == "CREATE SCHEMA IF NOT EXISTS " + rest;
    }
  }

  /** The quote-free texts around four quotes are the segments of a split on the quote. */
  lemma FourQuotesSplit(a: string, n: string, b: string, c: string, q: char)
    requires q !in a && q !in n && q !in b && q !in c
    ensures Split(a + [q] + (n + [q] + (b + [q] + (n + [q] + c))), q) == [a, n, b, n, c]
  {
    var parts := [a, n, b, n, c];
    assert Join([q], parts[3..]) == n + [q] + c;
    assert Join([q], parts[2..]) == b + [q] + (n + [q] + c);
    assert Join([q], parts[1..]) == n + [q] + (b + [q] + (n + [q] + c));
    assert Join([q], parts) == a + [q] + (n + [q] + (b + [q] + (n + [q] + c)));
    JoinSplit(parts, q);
  }

  /** Two quoted names in a text, regrouped so that each quote starts a new suffix. */
  lemma QuotedTwiceRegroup(a: string, n: string, b: string, c: string, q: char)
    ensures a + ([q] + n + [q]) + b + ([q] + n + [q]) + c
            == a + [q] + (n + [q] + (b + [q] + (n + [q] + c)))
  {
    var d := [q] + n + [q];
    ConcatAssoc(a + d + b, d, c);
    ConcatAssoc(a + d, b, d + c);
    ConcatAssoc(a, d, b + (d + c));
    ConcatAssoc([q] + n, [q], c);
    ConcatAssoc([q], n, [q] + c);
    ConcatAssoc(n, [q], c);
    assert d + c == [q] + (n + [q] + c);
    ConcatAssoc([q] + n, [q], b + (d + c));
    ConcatAssoc([q], n, [q] + (b + (d + c)));
    ConcatAssoc(n, [q], b + (d + c));
    ConcatAssoc(b, [q], n + [q] + c);
    assert d + (b + (d + c)) == [q] + (n + [q] + (b + [q] + (n + [q] + c)));
    ConcatAssoc(a, [q], n + [q] + (b + [q] + (n + [q] + c)));
  }

  /** When the parsed name has no double quote of its own, the schema that is created is the
      schema put on the search path: the quoted segments of the statement are that name, twice. */
  lemma SchemaCreatedIsSchemaSearched(s: string, nameParser: string -> string)
    requires '"' !in nameParser(s)
    ensures Split(SetSchemaSql(Some(s), nameParser), '"')
            == ["CREATE SCHEMA IF NOT EXISTS ", nameParser(s), "; SET search_path to ", nameParser(s), ";"]
  {
    var n := nameParser(s);
    assert Quote(n) == ['"'] + n + ['"'];
    QuotedTwiceRegroup("CREATE SCHEMA IF NOT EXISTS ", n, "; SET search_path to ", ";", '"');
    FourQuotesSplit("CREATE SCHEMA IF NOT EXISTS ", n, "; SET search_path to ", ";", '"');
  }

  // ---------------------------------------------------------------- parameter conversion

  datatype IntKind = SByte | Byte | Int16 | UInt16 | Int32 | UInt32 | Int64 | UInt64

  function Bits(k: IntKind): nat {
    match k
    case SByte => 8
    case Byte => 8
    case Int16 => 16
    case UInt16 => 16
    case Int32 => 32
    case UInt32 => 32
    case Int64 => 64
    case UInt64 => 64
  }

  predicate IsUnsigned(k: IntKind) {
    k == Byte || k == UInt16 || k == UInt32 || k == UInt64
  }

  /** The values a `k` holds. */
  predicate InRange(k: IntKind, v: int) {
    if IsUnsigned(k) then 0 <= v < PowerSet.Pow2(Bits(k))
    else -(PowerSet.Pow2(Bits(k) - 1) as int) <= v < PowerSet.Pow2(Bits(k) - 1)
  }

  /** A boxed parameter value as `ConvertToFriendlyParameter` distinguishes it. */
  datatype Value =
    | Null
    | Integer(kind: IntKind, v: int)
    | Character(c: char)
    | Str(s: string)
    | EnumValue(typeName: string, underlying: IntKind, raw: int)
    | Other(typeName: string)

  predicate Valid(x: Value) {
    match x
    case Integer(k, v) => InRange(k, v)
    case EnumValue(_, k, raw) => InRange(k, raw)
    case _ => true
  }

  /** The signed type of the same width that `ushort`, `uint` and `ulong` are cast to. */
  function SignedPartner(k: IntKind): IntKind {
    match k
    case UInt16 => Int16
    case UInt32 => Int32
    case UInt64 => Int64
    case _ => k
  }

  /** An unchecked cast to the signed type of the same width: the bit pattern is kept. */
  function ToSigned(v: int, bits: nat): int
    requires bits >= 1
  {
    if v >= PowerSet.Pow2(bits - 1) then v - PowerSet.Pow2(bits) else v
  }

  /** The unsigned value a signed bit pattern stands for. */
  function ToUnsigned(v: int, bits: nat): int {
    if v < 0 then v + PowerSet.Pow2(bits) else v
  }

  /** The integral cases of the conversion, after an enum has become its underlying value. */
  function ConvertInteger(k: IntKind, v: int): Value {
    if k == UInt16 || k == UInt32 || k == UInt64 then Integer(SignedPartner(k), ToSigned(v, Bits(k)))
    else Integer(k, v)
  }

  /** `ConvertToFriendlyParameter`: null stays null; an enum becomes its underlying integer;
      a `char` becomes a one-character string; `ushort`, `uint` and `ulong` are cast to the
      signed type of the same width; everything else is passed through. */
  function ConvertToFriendlyParameter(x: Value): (r: Value)
    ensures x.Null? <==> r.Null?
    ensures x.Character? ==> r == Str([x.c])
    ensures x.Str? || x.Other? ==> r == x
    ensures x.Integer? && !(x.kind == UInt16 || x.kind == UInt32 || x.kind == UInt64) ==> r == x
    ensures Valid(x) ==> Valid(r)
    ensures r.Integer? ==> !(r.kind in {UInt16, UInt32, UInt64})
    ensures !r.EnumValue? && !r.Character?
  {
    match x
    case Null => Null
    case EnumValue(_, k, raw) => ConvertInteger(k, raw)
    case Character(c) => Str([c])
    case Integer(k, v) => ConvertInteger(k, v)
    case _ => x
  }

  /** The cast loses nothing: reading the signed result back as unsigned gives the value, and
      a value the signed type can already hold is passed unchanged. */
  lemma UnsignedCastRoundTrip(k: IntKind, v: int)
    requires k == UInt16 || k == UInt32 || k == UInt64
    requires InRange(k, v)
    ensures var r := ConvertToFriendlyParameter(Integer(k, v));
            && r.Integer? && r.kind == SignedPartner(k) && Bits(r.kind) == Bits(k)
            && ToUnsigned(r.v, Bits(k)) == v
            && (v < PowerSet.Pow2(Bits(k) - 1) <==> r.v == v)
  {
    assert PowerSet.Pow2(Bits(k)) == 2 * PowerSet.Pow2(Bits(k) - 1);
  }

  /** Different unsigned values stay different after the cast. */
  lemma UnsignedCastInjective(k: IntKind, a: int, b: int)
    requires k == UInt16 || k == UInt32 || k == UInt64
    requires InRange(k, a) && InRange(k, b)
    requires ConvertToFriendlyParameter(Integer(k, a)) == ConvertToFriendlyParameter(Integer(k, b))
    ensures a == b
  {
    UnsignedCastRoundTrip(k, a);
    UnsignedCastRoundTrip(k, b);
  }

  /** An enum is sent exactly as its underlying integer would be. */
  lemma EnumSentAsUnderlying(name: string, k: IntKind, raw: int)
    ensures ConvertToFriendlyParameter(EnumValue(name, k, raw)) == ConvertToFriendlyParameter(Integer(k, raw))
  {
  }
}
