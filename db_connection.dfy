/** db-connection.ts: a connection to the database a `.env` file describes,
    a guard that refuses queries until it is open, and a table preview whose
    table name is stripped of everything but name characters. The database
    client itself is not modelled: whether it connects and what a query
    returns are parameters. */
module DbConnection {
  import opened Wrappers
  import opened Strings
  import opened EnvParser

  /** The settings a pg `Client` is created with. */
  datatype Client = Client(
    host: Option<string>,
    port: Option<int>,
    user: Option<string>,
    password: Option<string>,
    database: Option<string>,
    connectionTimeoutMillis: nat)

  const ConnectionTimeoutMillis: nat := 5000

  /** The outcome of a query: its rows (column name to value text) or the
      message of the error it throws. */
  datatype QueryOutcome = Rows(rows: seq<map<string, string>>) | Failed(message: string)

  const NotConnectedMessage := "Database not connected"
  const DefaultPreviewLimit := 20

  /** The client a configuration asks for. */
  function ClientFor(config: DbConfig): (c: Client)
    ensures c.host == config.host && c.port == config.port && c.user == config.username
    ensures c.password == config.password && c.database == config.database
    ensures c.connectionTimeoutMillis == ConnectionTimeoutMillis
  {
    Client(config.host, config.port, config.username, config.password, config.database, ConnectionTimeoutMillis)
  }

  // ---------------------------------------------------------------------
  // The table-name sanitiser and the preview query
  // ---------------------------------------------------------------------

  /** The characters `[a-zA-Z0-9_.]`. */
  predicate IsNameChar(c: char) {
    'a' <= c <= 'z' || 'A' <= c <= 'Z' || IsDigit(c) || c == '_' || c == '.'
  }

  /** `tableName.replace(/[^a-zA-Z0-9_.]/g, '')`. */
  function Sanitize(tableName: string): (r: string)
    ensures |r| <= |tableName|
    ensures forall i :: 0 <= i < |r| ==> IsNameChar(r[i])
  {
    var r := Filter(tableName, IsNameChar);
    assert forall i :: 0 <= i < |r| ==> r[i] in r;
    r
  }

  /** Every name character is kept as often as it occurs; every other
      character is dropped. */
  lemma {:induction false} SanitizeCounts(tableName: string, c: char)
    ensures multiset(Sanitize(tableName))[c] == if IsNameChar(c) then multiset(tableName)[c] else 0
  {
    if |tableName| > 0 {
      var init := tableName[..|tableName| - 1];
      SanitizeCounts(init, c);
      assert tableName == init + [tableName[|tableName| - 1]];
    }
  }

  /** The kept characters stay in their original order: the sanitiser works
      piece by piece. */
  lemma SanitizeAppend(a: string, b: string)
    ensures Sanitize(a + b) == Sanitize(a) + Sanitize(b)
  {
    FilterAppend(a, b, IsNameChar);
  }

  /** A name made of name characters only is left alone. */
  lemma {:induction false} SanitizeKeepsName(tableName: string)
    requires forall i :: 0 <= i < |tableName| ==> IsNameChar(tableName[i])
    ensures Sanitize(tableName) == tableName
  {
    if |tableName| > 0 {
      var init := tableName[..|tableName| - 1];
      SanitizeKeepsName(init);
      assert tableName == init + [tableName[|tableName| - 1]];
    }
  }

  /** Sanitising twice is sanitising once. */
  lemma SanitizeIdempotent(tableName: string)
    ensures Sanitize(Sanitize(tableName)) == Sanitize(tableName)
  {
    SanitizeKeepsName(Sanitize(tableName));
  }

  const SelectPrefix := "SELECT * FROM "
  const LimitInfix := " LIMIT "

  /** The text `previewTable` runs. */
  function PreviewQuery(tableName: string, limit: int): (q: string)
  {
    SelectPrefix + Sanitize(tableName) + LimitInfix + IntString(limit)
  }

  /** The table part of a preview query is one word of name characters
      between "SELECT * FROM " and " LIMIT ", and the query holds no
      statement separator and no quote: whatever the table name, the query
      reads one table and nothing else. */
  lemma PreviewQueryShape(tableName: string, limit: int)
    ensures var q := PreviewQuery(tableName, limit);
      var t := Sanitize(tableName);
      && q[..|SelectPrefix|] == SelectPrefix
      && q[|SelectPrefix|..|SelectPrefix| + |t|] == t
      && q[|SelectPrefix| + |t|..|SelectPrefix| + |t| + |LimitInfix|] == LimitInfix
      && (forall i :: 0 <= i < |t| ==> t[i] != ' ')
      && (forall i :: 0 <= i < |q| ==> q[i] != ';' && q[i] != '\'' && q[i] != '"')
  {
    var q := PreviewQuery(tableName, limit);
    var t := Sanitize(tableName);
    var n := IntString(limit);
    assert q == SelectPrefix + t + LimitInfix + n;
    forall i | 0 <= i < |q|
      ensures q[i] != ';' && q[i] != '\'' && q[i] != '"'
    {
      if i < |SelectPrefix| {
        assert q[i] == SelectPrefix[i];
      } else if i < |SelectPrefix| + |t| {
        assert q[i] == t[i - |SelectPrefix|];
      } else if i < |SelectPrefix| + |t| + |LimitInfix| {
        assert q[i] == LimitInfix[i - |SelectPrefix| - |t|];
      } else {
        assert q[i] == n[i - |SelectPrefix| - |t| - |LimitInfix|];
      }
    }
  }

  /** A name with a statement appended is cut down to one word. */
  lemma InjectionStripped()
    ensures Sanitize("a; b") == "ab"
  {
    assert "a; b" == "a;" + " b";
    SanitizeAppend("a;", " b");
    assert "a;" == "a" + ";";
    SanitizeAppend("a", ";");
    assert " b" == " " + "b";
    SanitizeAppend(" ", "b");
  }

  // ---------------------------------------------------------------------
  // The service
  // ---------------------------------------------------------------------

  class DatabaseService {
    const config: DbConfig
    var client: Option<Client>
    var isConnected: bool

    /** A connection is only ever marked open once a client exists. */
    predicate Valid()
      reads this
    {
      isConnected ==> client.Some?
    }

    /** What `executeQuery` checks: a client exists and is connected. */
    predicate Connected()
      reads this
    {
      client.Some? && isConnected
    }

    constructor (config: DbConfig)
      ensures this.config == config && client.None? && !isConnected
      ensures Valid()
    {
      this.config := config;
      client := None;
      isConnected := false;
    }

    /** `connect`: only Postgres is supported; another type fails before a
        client is made. Otherwise a client is created from the
        configuration and `clientConnects` says whether it connects. The
        connection is marked open only when it does. */
    method Connect(clientConnects: bool) returns (ok: bool)
      requires Valid()
      modifies this
      ensures Valid()
      ensures config.dbType != Postgres ==>
        !ok && client == old(client) && isConnected == old(isConnected)
      ensures config.dbType == Postgres ==>
        client == Some(ClientFor(config)) && ok == clientConnects
      ensures ok ==> Connected()
      ensures !ok ==> isConnected == old(isConnected)
    {
      if config.dbType != Postgres {
        return false;
      }
      client := Some(ClientFor(config));
      if !clientConnects {
        return false;
      }
      isConnected := true;
      ok := true;
    }

    /** `executeQuery`: refused with "Database not connected" unless
        connected; otherwise `run` gives the rows or the error the query
        throws. Nothing about the service changes. Both refusals are thrown
        errors, so a `run` that fails with the same message cannot be told
        apart from the guard, here as in the source. */
    method ExecuteQuery(query: string, run: string -> QueryOutcome) returns (r: QueryOutcome)
      ensures !Connected() ==> r == Failed(NotConnectedMessage)
      ensures Connected() ==> r == run(query)
    {
      if client.None? || !isConnected {
        return Failed(NotConnectedMessage);
      }
      r := run(query);
    }

    /** `disconnect`: ends an open connection and marks it closed; without
        one it does nothing, so a second call changes nothing. The client
        object is kept. */
    method Disconnect()
      requires Valid()
      modifies this
      ensures Valid() && !isConnected && client == old(client)
      ensures !old(Connected()) ==> isConnected == old(isConnected)
    {
      if client.Some? && isConnected {
        isConnected := false;
      }
    }

    /** `previewTable`: the first `limit` rows (20 unless given) of the
        table whose sanitised name is `tableName`'s. */
    method PreviewTable(tableName: string, run: string -> QueryOutcome, limit: int := DefaultPreviewLimit)
      returns (r: QueryOutcome)
      ensures !Connected() ==> r == Failed(NotConnectedMessage)
      ensures Connected() ==> r == run(SelectPrefix + Sanitize(tableName) + LimitInfix + IntString(limit))
    {
      r := ExecuteQuery(PreviewQuery(tableName, limit), run);
    }
  }
}
