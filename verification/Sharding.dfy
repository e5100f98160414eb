/** Routing a notification to a database and a table, by its key or by its id. */
module Sharding {
  import opened GoInt
  import opened Snowflake

  datatype Strategy = Strategy(dbPrefix: string, tablePrefix: string, tableSharding: int, dbSharding: int)
  {
    predicate Positive() { tableSharding > 0 && dbSharding > 0 }
  }

  datatype Dst = Dst(table: string, db: string, tableSuffix: nat, dbSuffix: nat)

  /** Both routing functions, from a hash value on. */
  function Route(s: Strategy, hash: nat): Dst
    requires s.Positive()
  {
    var dbHash, tableHash := hash % s.dbSharding, (hash / s.dbSharding) % s.tableSharding;
    Dst(s.tablePrefix + "_" + Decimal(tableHash), s.dbPrefix + "_" + Decimal(dbHash), tableHash, dbHash)
  }

  /** `Shard`, with the hash of (bizID, key). */
  function Shard(s: Strategy, hash: nat): Dst
    requires s.Positive()
  {
    Route(s, hash)
  }

  /** `ShardWithID`. */
  function ShardWithID(s: Strategy, id: int64): Dst
    requires s.Positive()
  {
    Route(s, ExtractHashValue(id))
  }

  /** A route is a pair of digits of the hash modulo the number of tables: database first. */
  lemma RouteDigits(s: Strategy, hash: nat)
    requires s.Positive()
    ensures s.dbSharding * s.tableSharding > 0
    ensures var dst, r := Route(s, hash), hash % (s.dbSharding * s.tableSharding);
            && dst.dbSuffix < s.dbSharding && dst.tableSuffix < s.tableSharding
            && r == dst.dbSuffix + s.dbSharding * dst.tableSuffix
  {
    var d, t := s.dbSharding, s.tableSharding;
    var q := hash / d;
    assert hash == d * q + hash % d;
    assert q == t * (q / t) + q % t;
    assert hash == (d * t) * (q / t) + (d * (q % t) + hash % d) by { Regroup(d, t, q / t, q % t); }
    MulAtLeast(d, q % t + 1, t);
    assert d * (q % t + 1) == d * (q % t) + d;
    DivModUnique(hash, d * t, q / t, d * (q % t) + hash % d);
  }

  lemma Regroup(d: int, t: int, a: int, b: int)
    ensures d * (t * a + b) == (d * t) * a + d * b
  {
  }

  /** Routes are in bijection with the hash modulo the number of tables: equal exactly when the
      remainders are, and every database and table is reached. */
  lemma RouteBijection(s: Strategy, h1: nat, h2: nat)
    requires s.Positive()
    ensures s.dbSharding * s.tableSharding > 0
    ensures Route(s, h1) == Route(s, h2)
        <==> h1 % (s.dbSharding * s.tableSharding) == h2 % (s.dbSharding * s.tableSharding)
  {
    RouteDigits(s, h1);
    RouteDigits(s, h2);
    var d, a, b := s.dbSharding, Route(s, h1), Route(s, h2);
    if a.dbSuffix + d * a.tableSuffix == b.dbSuffix + d * b.tableSuffix {
      DivModUnique(a.dbSuffix + d * a.tableSuffix, d, a.tableSuffix, a.dbSuffix);
      DivModUnique(b.dbSuffix + d * b.tableSuffix, d, b.tableSuffix, b.dbSuffix);
    }
  }

  /** A text is a prefix, one underscore and digits that read back as the number, without leading zero. */
  predicate Numbered(text: string, prefix: string, n: nat) {
    && |text| > |prefix| + 1 && text[..|prefix|] == prefix && text[|prefix|] == '_'
    && Digits(text[|prefix| + 1..]) && Parse(text[|prefix| + 1..]) == n
    && (text[|prefix| + 1] == '0' ==> n == 0)
  }

  lemma NameReads(prefix: string, n: nat)
    ensures Numbered(prefix + "_" + Decimal(n), prefix, n)
  {
    var text := prefix + "_" + Decimal(n);
    DecimalParses(n);
    assert text[|prefix| + 1..] == Decimal(n) && text[|prefix| + 1] == Decimal(n)[0];
  }

  /** The names of a route: the table prefix with the table's number, the database prefix with the
      database's. */
  lemma RouteNames(s: Strategy, hash: nat)
    requires s.Positive()
    ensures Numbered(Route(s, hash).table, s.tablePrefix, Route(s, hash).tableSuffix)
    ensures Numbered(Route(s, hash).db, s.dbPrefix, Route(s, hash).dbSuffix)
  {
    NameReads(s.tablePrefix, Route(s, hash).tableSuffix);
    NameReads(s.dbPrefix, Route(s, hash).dbSuffix);
  }

  /** The last part of a text split at a character. */
  function LastPart(text: string, c: char): string {
    if text == "" || text[|text| - 1] == c then "" else LastPart(text[..|text| - 1], c) + [text[|text| - 1]]
  }

  /** `ExtractSuffixAndFormatFromTable`. */
  function ExtractSuffixAndFormat(s: Strategy, tableName: string): string {
    s.tablePrefix + "_" + LastPart(tableName, '_')
  }

  lemma {:induction false} LastPartIs(text: string, c: char)
    ensures c !in LastPart(text, c)
    ensures LastPart(text, c) == text || exists front :: text == front + [c] + LastPart(text, c)
  {
    if text != "" && text[|text| - 1] != c {
      var front, last := text[..|text| - 1], text[|text| - 1];
      LastPartIs(front, c);
      assert text == front + [last];
      if LastPart(front, c) != front {
        var f :| front == f + [c] + LastPart(front, c);
        assert text == f + [c] + LastPart(text, c);
      }
    } else if text != "" {
      assert text == text[..|text| - 1] + [c] + "";
    }
  }

  lemma {:induction false} LastPartOf(front: string, c: char, part: string)
    requires c !in part
    ensures LastPart(front + [c] + part, c) == part
    decreases |part|
  {
    var text := front + [c] + part;
    if part != "" {
      assert text[..|text| - 1] == front + [c] + part[..|part| - 1];
      LastPartOf(front, c, part[..|part| - 1]);
    }
  }

  /** A name is given back unchanged if and only if it is the table prefix, an underscore and a part
      without one; every routed table name is. */
  lemma ExtractKeepsExactly(s: Strategy, tableName: string)
    ensures ExtractSuffixAndFormat(s, tableName) == tableName
        <==> exists part :: '_' !in part && tableName == s.tablePrefix + "_" + part
  {
    if part :| '_' !in part && tableName == s.tablePrefix + "_" + part {
      LastPartOf(s.tablePrefix, '_', part);
    }
    LastPartIs(tableName, '_');
  }

  lemma ExtractKeepsRouted(s: Strategy, hash: nat)
    requires s.Positive()
    ensures ExtractSuffixAndFormat(s, Route(s, hash).table) == Route(s, hash).table
  {
    LastPartOf(s.tablePrefix, '_', Decimal(Route(s, hash).tableSuffix));
  }

  /** The names of database and table alone tell routes apart. */
  lemma NamesTellRoutesApart(s: Strategy, h1: nat, h2: nat)
    requires s.Positive()
    ensures Route(s, h1).db == Route(s, h2).db && Route(s, h1).table == Route(s, h2).table <==> Route(s, h1) == Route(s, h2)
  {
    var a, b := Route(s, h1), Route(s, h2);
    if a.db == b.db && a.table == b.table {
      NumberedNames(s.dbPrefix, a.dbSuffix, b.dbSuffix);
      NumberedNames(s.tablePrefix, a.tableSuffix, b.tableSuffix);
    }
  }

  lemma NumberedNames(prefix: string, i: nat, j: nat)
    requires prefix + "_" + Decimal(i) == prefix + "_" + Decimal(j)
    ensures i == j
  {
    assert (prefix + "_" + Decimal(i))[|prefix| + 1..] == Decimal(i);
    assert (prefix + "_" + Decimal(j))[|prefix| + 1..] == Decimal(j);
    DecimalInjective(i, j);
  }

  lemma EveryTableIsReached(s: Strategy, db: nat, table: nat)
    requires s.Positive() && db < s.dbSharding && table < s.tableSharding
    ensures Route(s, db + s.dbSharding * table).dbSuffix == db && Route(s, db + s.dbSharding * table).tableSuffix == table
  {
    DivModUnique(db + s.dbSharding * table, s.dbSharding, table, db);
    DivModUnique(table, s.tableSharding, 0, table);
  }

  /** Only the low ten bits of the hash travel in an id.  Both paths agree for every hash if and only
      if the number of tables divides 1024. */
  lemma PathsAgreeExactly(s: Strategy)
    requires s.Positive()
    ensures s.dbSharding * s.tableSharding > 0
    ensures (forall hash: nat | hash <= MAX_INT64 :: Route(s, hash) == Route(s, hash % 1024))
        <==> 1024 % (s.dbSharding * s.tableSharding) == 0
  {
    var d, t := s.dbSharding, s.tableSharding;
    RouteDigits(s, 0);
    var n := d * t;
    if 1024 % n == 0 {
      forall hash: nat | hash <= MAX_INT64 ensures Route(s, hash) == Route(s, hash % 1024) {
        RemainderOfRemainder(hash, n);
        RouteBijection(s, hash, hash % 1024);
      }
    } else if forall hash: nat | hash <= MAX_INT64 :: Route(s, hash) == Route(s, hash % 1024) {
      assert Route(s, 1024) == Route(s, 1024 % 1024);
      RouteBijection(s, 1024, 0);
      DivModUnique(0, n, 0, 0);
    }
  }

  lemma RemainderOfRemainder(hash: nat, n: int)
    requires n > 0 && 1024 % n == 0
    ensures (hash % 1024) % n == hash % n
  {
    var c := 1024 / n;
    assert 1024 == n * c;
    if c < 1 { MulAtLeast(n, c, 0); }
    ModOfMod(hash, n, c);
  }

  /** Every id of a generator routes like the key that it was generated for. */
  lemma GeneratedIdRoutes(s: Strategy, first: int64, requests: seq<Request>, i: nat)
    requires s.Positive() && i < |requests| && 0 <= requests[i].hash <= MAX_INT64
    requires s.dbSharding * s.tableSharding > 0 && 1024 % (s.dbSharding * s.tableSharding) == 0
    ensures IdAt(first, requests, i) <= MAX_INT64
    ensures ShardWithID(s, IdAt(first, requests, i)) == Shard(s, requests[i].hash)
  {
    hide Combine, ShardWithID, Shard;
    ShardAgreesWithID(s, requests[i].hash, requests[i].now - EPOCH_MILLIS, Wrap64(first + i));
  }

  /** The two paths of a notification: by its key, and by the id generated for that key. */
  lemma ShardAgreesWithID(s: Strategy, hash: nat, timestamp: int, sequence: int)
    requires s.Positive() && hash <= MAX_INT64
    requires s.dbSharding * s.tableSharding > 0 && 1024 % (s.dbSharding * s.tableSharding) == 0
    ensures Combine(timestamp, hash, sequence) <= MAX_INT64
    ensures ShardWithID(s, Combine(timestamp, hash, sequence)) == Shard(s, hash)
  {
    hide Combine, ExtractHashValue, Route;
    ExtractsWhatWasPacked(timestamp, hash, sequence);
    PathsAgreeExactly(s);
  }
}
