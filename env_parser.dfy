/** env-parser.ts: the database settings read from a workspace's `.env`
    file. The file is given already parsed, as a map from variable names to
    values; `None` stands for a file that is missing or could not be read or
    parsed, all of which end in `null`. */
module EnvParser {
  import opened Wrappers
  import opened Strings

  datatype DbType = Postgres | Mysql | UnknownType

  /** `DbConfig`: every setting but the type is optional; `port` is `None`
      where `parseInt` yields NaN. */
  datatype DbConfig = DbConfig(
    dbType: DbType,
    host: Option<string>,
    port: Option<int>,
    username: Option<string>,
    password: Option<string>,
    database: Option<string>)

  // ---------------------------------------------------------------------
  // `a || b || c` over optional strings
  // ---------------------------------------------------------------------

  /** `envConfig[key]`: undefined when the variable is not set. */
  function Lookup(env: map<string, string>, key: string): (r: Option<string>)
    ensures r.Some? <==> key in env
    ensures r.Some? ==> r.value == env[key]
  {
    if key in env then Some(env[key]) else None
  }

  /** `v0 || v1 || ... || vn`: the first truthy operand, or the last operand
      when none is truthy (which may be "" or undefined). */
  function OrChain(vals: seq<Option<string>>): (r: Option<string>)
    requires |vals| > 0
    ensures Truthy(r) <==> exists i :: 0 <= i < |vals| && Truthy(vals[i])
    ensures !Truthy(r) ==> r == vals[|vals| - 1]
    ensures forall i :: 0 <= i < |vals| && Truthy(vals[i]) && (forall k :: 0 <= k < i ==> !Truthy(vals[k])) ==>
      r == vals[i]
  {
    if |vals| == 1 || Truthy(vals[0]) then vals[0]
    else
      var r := OrChain(vals[1..]);
      assert forall i :: 1 <= i < |vals| ==> vals[i] == vals[1..][i - 1];
      r
  }

  const HostKeys: seq<string> := ["DB_HOST", "POSTGRES_HOST", "DATABASE_HOST"]
  const PortKeys: seq<string> := ["DB_PORT", "POSTGRES_PORT"]
  const UserKeys: seq<string> := ["DB_USER", "DB_USERNAME", "POSTGRES_USER"]
  const PasswordKeys: seq<string> := ["DB_PASS", "DB_PASSWORD", "POSTGRES_PASSWORD"]
  const DatabaseKeys: seq<string> := ["DB_NAME", "DB_DATABASE", "POSTGRES_DB"]
  const DefaultPortText := "5432"

  /** The values of `keys` in `env`, in order. */
  function Values(env: map<string, string>, keys: seq<string>): (r: seq<Option<string>>)
    ensures |r| == |keys| && forall i :: 0 <= i < |keys| ==> r[i] == Lookup(env, keys[i])
  {
    Map(keys, (k: string) => Lookup(env, k))
  }

  /** A setting read through its fallback keys. */
  function Setting(env: map<string, string>, keys: seq<string>): (r: Option<string>)
    requires |keys| > 0
    ensures Truthy(r) <==> exists i :: 0 <= i < |keys| && Truthy(Lookup(env, keys[i]))
    ensures !Truthy(r) ==> r == Lookup(env, keys[|keys| - 1])
  {
    OrChain(Values(env, keys))
  }

  /** The first key whose value is non-empty gives the setting. */
  lemma FirstKeyWins(env: map<string, string>, keys: seq<string>, i: nat)
    requires i < |keys| && Truthy(Lookup(env, keys[i]))
    requires forall k :: 0 <= k < i ==> !Truthy(Lookup(env, keys[k]))
    ensures Setting(env, keys) == Lookup(env, keys[i])
  {
    var vals := Values(env, keys);
    assert forall k :: 0 <= k < i ==> !Truthy(vals[k]);
  }

  /** The text handed to `parseInt` for the port: DB_PORT, else
      POSTGRES_PORT, else "5432". */
  function PortText(env: map<string, string>): (r: string)
    ensures Truthy(Lookup(env, "DB_PORT")) ==> r == env["DB_PORT"]
    ensures !Truthy(Lookup(env, "DB_PORT")) && Truthy(Lookup(env, "POSTGRES_PORT")) ==> r == env["POSTGRES_PORT"]
    ensures !Truthy(Lookup(env, "DB_PORT")) && !Truthy(Lookup(env, "POSTGRES_PORT")) ==> r == DefaultPortText
  {
    var vals := Values(env, PortKeys) + [Some(DefaultPortText)];
    assert Truthy(vals[2]);
    assert vals[0] == Lookup(env, "DB_PORT") && vals[1] == Lookup(env, "POSTGRES_PORT");
    OrChain(vals).value
  }

  // ---------------------------------------------------------------------
  // `parseInt` with no radix
  // ---------------------------------------------------------------------

  /** The value of a digit in any radix up to 36, letters in either case. */
  function DigitValue(c: char): (r: Option<nat>)
    ensures r.Some? ==> r.value < 36
    ensures IsDigit(c) ==> r == Some(c as int - '0' as int)
  {
    if IsDigit(c) then Some(c as int - '0' as int)
    else if 'a' <= c <= 'z' then Some(c as int - 'a' as int + 10)
    else if 'A' <= c <= 'Z' then Some(c as int - 'A' as int + 10)
    else None
  }

  predicate IsRadixDigit(c: char, radix: nat) {
    DigitValue(c).Some? && DigitValue(c).value < radix
  }

  /** The length of the run of radix digits `s` starts with. */
  function DigitRun(s: string, radix: nat): (n: nat)
    ensures n <= |s|
    ensures forall i :: 0 <= i < n ==> IsRadixDigit(s[i], radix)
    ensures n == |s| || !IsRadixDigit(s[n], radix)
  {
    if |s| > 0 && IsRadixDigit(s[0], radix) then
      var n := 1 + DigitRun(s[1..], radix);
      assert forall i :: 1 <= i < n ==> s[i] == s[1..][i - 1];
      n
    else 0
  }

  /** `radix` times `x`, for the two radixes `parseInt` picks from. */
  function Shift(x: nat, radix: nat): (r: nat)
    requires radix == 10 || radix == 16
    ensures r == x * radix
  {
    if radix == 16 then 16 * x else 10 * x
  }

  /** The number a run of radix digits spells, most significant first. */
  function DigitsValue(s: string, radix: nat): (v: nat)
    requires radix == 10 || radix == 16
    requires forall i :: 0 <= i < |s| ==> IsRadixDigit(s[i], radix)
  {
    if |s| == 0 then 0
    else
      assert IsRadixDigit(s[|s| - 1], radix);
      var last := DigitValue(s[|s| - 1]);
      Shift(DigitsValue(s[..|s| - 1], radix), radix) + last.value
  }

  /** The unsigned part of `parseInt`: hexadecimal digits after a "0x" or
      "0X" prefix, decimal digits otherwise, up to the first character that
      is not a digit; `None` (NaN) when no digit comes first. */
  function ParseMagnitude(u: string): (r: Option<nat>)
  {
    var hex := |u| >= 2 && u[0] == '0' && (u[1] == 'x' || u[1] == 'X');
    var radix := if hex then 16 else 10;
    var digits := if hex then u[2..] else u;
    var n := DigitRun(digits, radix);
    if n == 0 then None else Some(DigitsValue(digits[..n], radix))
  }

  /** `parseInt(s)` with no radix: leading white space skipped, then an
      optional sign, then the magnitude. `None` is NaN. */
  function ParseInt(s: string): (r: Option<int>)
    ensures TrimStart(s) == [] ==> r.None?
  {
    var t := TrimStart(s);
    if |t| > 0 && t[0] == '-' then
      match ParseMagnitude(t[1..])
      case None => None
      case Some(m) => Some(-(m as int))
    else if |t| > 0 && t[0] == '+' then
      match ParseMagnitude(t[1..])
      case None => None
      case Some(m) => Some(m)
    else
      match ParseMagnitude(t)
      case None => None
      case Some(m) => Some(m)
  }

  lemma {:induction false} DigitsValueOfNat(n: nat)
    ensures forall i :: 0 <= i < |NatString(n)| ==> IsRadixDigit(NatString(n)[i], 10)
    ensures DigitsValue(NatString(n), 10) == n
  {
    var s := NatString(n);
    if n >= 10 {
      DigitsValueOfNat(n / 10);
      assert s[..|s| - 1] == NatString(n / 10);
    }
  }

  /** A run of decimal digits followed by a non-digit reads as its value. */
  lemma DecimalMagnitude(digits: string, rest: string)
    requires |digits| > 0 && forall i :: 0 <= i < |digits| ==> IsDigit(digits[i])
    requires |digits| > 1 || digits[0] != '0' || rest == [] || (rest[0] != 'x' && rest[0] != 'X')
    requires rest == [] || !IsDigit(rest[0])
    ensures forall i :: 0 <= i < |digits| ==> IsRadixDigit(digits[i], 10)
    ensures ParseMagnitude(digits + rest) == Some(DigitsValue(digits, 10))
  {
    var u := digits + rest;
    assert u[0] == digits[0];
    assert |u| >= 2 && u[0] == '0' ==> u[1] != 'x' && u[1] != 'X' by {
      if |u| >= 2 && u[0] == '0' {
        if |digits| > 1 {
          assert u[1] == digits[1];
        } else {
          assert u[1] == rest[0];
        }
      }
    }
    DigitRunStops(digits, rest);
    assert u[..|digits|] == digits;
  }

  lemma DigitRunStops(digits: string, rest: string)
    requires forall i :: 0 <= i < |digits| ==> IsDigit(digits[i])
    requires rest == [] || !IsDigit(rest[0])
    ensures DigitRun(digits + rest, 10) == |digits|
  {
    var u := digits + rest;
    assert forall i :: 0 <= i < |digits| ==> u[i] == digits[i];
    if rest != [] {
      assert u[|digits|] == rest[0];
      RadixTenDigit(rest[0]);
    }
  }

  /** The radix-10 digits are exactly the decimal digits. */
  lemma RadixTenDigit(c: char)
    ensures IsRadixDigit(c, 10) <==> IsDigit(c)
  {
  }

  /** A digit is not white space, so `trim` leaves it in place. */
  lemma TrimStartAtDigit(s: string)
    requires |s| > 0 && IsDigit(s[0])
    ensures TrimStart(s) == s
  {
    assert !IsWhitespace(s[0]);
  }

  /** Text starting with a digit has no sign to read. */
  lemma ParseIntAtDigit(s: string)
    requires |s| > 0 && IsDigit(s[0]) && ParseMagnitude(s).Some?
    ensures ParseInt(s) == Some(ParseMagnitude(s).value as int)
  {
    TrimStartAtDigit(s);
  }

  /** `parseInt` reads back the decimal text of every natural number. */
  lemma ParseIntOfNat(n: nat)
    ensures ParseInt(NatString(n)) == Some(n)
  {
    var s := NatString(n);
    DigitsValueOfNat(n);
    assert s + [] == s;
    DecimalMagnitude(s, []);
    ParseIntAtDigit(s);
  }

  lemma DefaultPortDigits()
    ensures NatString(5432) == DefaultPortText
  {
    assert NatString(5) == "5";
    assert NatString(54) == "54";
    assert NatString(543) == "543";
  }

  /** Characters after the number are ignored: "5432abc" is 5432. */
  lemma TrailingTextIgnored()
    ensures ParseInt("5432abc") == Some(5432)
  {
    DefaultPortDigits();
    DigitsValueOfNat(5432);
    assert "5432abc" == DefaultPortText + "abc";
    DecimalMagnitude(DefaultPortText, "abc");
    ParseIntAtDigit("5432abc");
  }

  // ---------------------------------------------------------------------
  // `getDbConfig`
  // ---------------------------------------------------------------------

  /** `EnvParser.getDbConfig`: a Postgres configuration when host, user and
      database name are all set to non-empty values, `null` otherwise. */
  function GetDbConfig(env: Option<map<string, string>>): (r: Option<DbConfig>)
    ensures env.None? ==> r.None?
    ensures env.Some? ==>
      (r.Some? <==> Truthy(Setting(env.value, HostKeys)) && Truthy(Setting(env.value, UserKeys))
                    && Truthy(Setting(env.value, DatabaseKeys)))
    ensures r.Some? ==>
      && r.value.dbType == Postgres
      && Truthy(r.value.host) && Truthy(r.value.username) && Truthy(r.value.database)
  {
    match env
    case None => None
    case Some(e) =>
      var host := Setting(e, HostKeys);
      var port := ParseInt(PortText(e));
      var username := Setting(e, UserKeys);
      var password := Setting(e, PasswordKeys);
      var database := Setting(e, DatabaseKeys);
      if Truthy(host) && Truthy(username) && Truthy(database) then
        Some(DbConfig(Postgres, host, port, username, password, database))
      else None
  }

  /** Each setting of a returned configuration comes from its first
      non-empty key; the password keeps the value of its last key (possibly
      "" or absent) when none is non-empty. */
  lemma ConfigSettings(env: map<string, string>)
    requires GetDbConfig(Some(env)).Some?
    ensures var c := GetDbConfig(Some(env)).value;
      && c.host == Setting(env, HostKeys)
      && c.username == Setting(env, UserKeys)
      && c.database == Setting(env, DatabaseKeys)
      && c.password == Setting(env, PasswordKeys)
      && c.port == ParseInt(PortText(env))
      && (!Truthy(c.password) ==> c.password == Lookup(env, "POSTGRES_PASSWORD"))
  {
  }

  /** The default port text reads as 5432. */
  lemma DefaultPortValue()
    ensures ParseInt(DefaultPortText) == Some(5432)
  {
    DefaultPortDigits();
    ParseIntOfNat(5432);
  }

  /** With neither DB_PORT nor POSTGRES_PORT set, the port is 5432. */
  lemma DefaultPort(env: map<string, string>)
    requires GetDbConfig(Some(env)).Some?
    requires !Truthy(Lookup(env, "DB_PORT")) && !Truthy(Lookup(env, "POSTGRES_PORT"))
    ensures GetDbConfig(Some(env)).value.port == Some(5432)
  {
    ConfigSettings(env);
    DefaultPortValue();
  }

  /** A decimal DB_PORT is the port, whatever POSTGRES_PORT says. */
  lemma PortFromDbPort(env: map<string, string>, n: nat)
    requires GetDbConfig(Some(env)).Some?
    requires "DB_PORT" in env && env["DB_PORT"] == NatString(n)
    ensures GetDbConfig(Some(env)).value.port == Some(n)
  {
    ConfigSettings(env);
    assert Truthy(Lookup(env, "DB_PORT"));
    ParseIntOfNat(n);
  }

  /** DB_HOST takes precedence over POSTGRES_HOST, and an empty DB_HOST
      falls through to it. */
  lemma HostPrecedence(env: map<string, string>)
    ensures Truthy(Lookup(env, "DB_HOST")) ==> Setting(env, HostKeys) == Lookup(env, "DB_HOST")
    ensures !Truthy(Lookup(env, "DB_HOST")) && Truthy(Lookup(env, "POSTGRES_HOST")) ==>
      Setting(env, HostKeys) == Lookup(env, "POSTGRES_HOST")
  {
    if Truthy(Lookup(env, "DB_HOST")) {
      FirstKeyWins(env, HostKeys, 0);
    } else if Truthy(Lookup(env, "POSTGRES_HOST")) {
      FirstKeyWins(env, HostKeys, 1);
    }
  }

  /** The password is optional: non-empty host, user and database name
      suffice, and with no password key set the password is absent. */
  lemma PasswordOptional(env: map<string, string>)
    requires Truthy(Lookup(env, "DB_HOST")) && Truthy(Lookup(env, "DB_USER")) && Truthy(Lookup(env, "DB_NAME"))
    requires forall k :: 0 <= k < |PasswordKeys| ==> PasswordKeys[k] !in env
    ensures GetDbConfig(Some(env)).Some?
    ensures GetDbConfig(Some(env)).value.password.None?
  {
    FirstKeyWins(env, HostKeys, 0);
    FirstKeyWins(env, UserKeys, 0);
    FirstKeyWins(env, DatabaseKeys, 0);
    assert PasswordKeys[2] !in env;
    ConfigSettings(env);
  }
}
