/** Configuration: the loosely typed settings map, URL scheme normalisation,
    DSN resolution (parseDSN) and the table-name defaults of the driver's Connection. */
module Settings {
  import opened Common
  import Ident

  /** A setting value, by the Go dynamic type the code asserts on. */
  datatype Value = Str(s: string) | Int(i: int) | Int64(i: int) | Other

  type Setting = map<string, Value>

  /** `setting[key].(string)` with its ok flag: Some only when the key holds a string. */
  function StringOf(setting: Setting, key: string): Option<string> {
    if key in setting && setting[key].Str? then Some(setting[key].s) else None
  }

  /** The `ok && v != ""` guard: a present, non-empty string. */
  predicate HasText(setting: Setting, key: string) {
    StringOf(setting, key).Some? && StringOf(setting, key).value != ""
  }

  /** The string setting when it is non-empty, otherwise the fallback. */
  function TextOr(setting: Setting, key: string, fallback: string): (r: string)
    ensures HasText(setting, key) ==> r == setting[key].s
    ensures !HasText(setting, key) ==> r == fallback
  {
    if HasText(setting, key) then setting[key].s else fallback
  }

  // ---------------------------------------------------------------- URL schemes

  const PgsqlScheme := "pgsql://"
  const PostgresqlScheme := "postgresql://"
  const PostgresScheme := "postgres://"

  predicate HasPrefix(s: string, p: string) {
    |p| <= |s| && s[..|p|] == p
  }

  /** normalizePGURL: the pgsql:// and postgresql:// schemes become postgres://. */
  function NormalizeUrl(v: string): (r: string)
    ensures HasPrefix(v, PgsqlScheme) ==> r == PostgresScheme + v[|PgsqlScheme|..]
    ensures !HasPrefix(v, PgsqlScheme) && HasPrefix(v, PostgresqlScheme) ==>
              r == PostgresScheme + v[|PostgresqlScheme|..]
    ensures !HasPrefix(v, PgsqlScheme) && !HasPrefix(v, PostgresqlScheme) ==> r == v
  {
    if HasPrefix(v, PgsqlScheme) then PostgresScheme + v[|PgsqlScheme|..]
    else if HasPrefix(v, PostgresqlScheme) then PostgresScheme + v[|PostgresqlScheme|..]
    else v
  }

  /** Normalising an already normalised URL changes nothing. */
  lemma NormalizeUrlIdempotent(v: string)
    ensures NormalizeUrl(NormalizeUrl(v)) == NormalizeUrl(v)
  {
    var r := NormalizeUrl(v);
    if r != v {
      // r starts with "postgres://": its second character rules out "pgsql://",
      // its ninth rules out "postgresql://"
      assert r[..|PostgresScheme|] == PostgresScheme;
      assert r[1] == 'o' && r[8] == ':';
      assert r[..|PgsqlScheme|][1] != PgsqlScheme[1];
      if |r| >= |PostgresqlScheme| {
        assert r[..|PostgresqlScheme|][8] != PostgresqlScheme[8];
      }
    }
  }

  /** Whatever URL comes in, the result does not start with a scheme the function would rewrite. */
  lemma NormalizeUrlResultIsCanonical(v: string)
    ensures !HasPrefix(NormalizeUrl(v), PgsqlScheme) && !HasPrefix(NormalizeUrl(v), PostgresqlScheme)
  {
    NormalizeUrlIdempotent(v);
  }

  // ---------------------------------------------------------------- decimal ports

  function DigitChar(d: nat): (c: char)
    requires d < 10
    ensures '0' <= c <= '9'
  {
    "0123456789"[d]
  }

  function DigitValue(c: char): nat
    requires '0' <= c <= '9'
  {
    (c - '0') as nat
  }

  /** strconv.Itoa / strconv.FormatInt(v, 10) for a positive value: its decimal digits. */
  function Decimal(n: nat): (r: string)
    ensures r != [] && forall i :: 0 <= i < |r| ==> '0' <= r[i] <= '9'
    ensures n > 0 ==> r[0] != '0'
  {
    if n < 10 then [DigitChar(n)] else Decimal(n / 10) + [DigitChar(n % 10)]
  }

  /** The value of a string of decimal digits. */
  function DecimalValue(s: string): nat
    requires forall i :: 0 <= i < |s| ==> '0' <= s[i] <= '9'
  {
    if s == [] then 0 else DecimalValue(s[..|s| - 1]) * 10 + DigitValue(s[|s| - 1])
  }

  /** Reading back the decimal text of a port number gives that number. */
  lemma {:induction false} DecimalRoundTrip(n: nat)
    ensures DecimalValue(Decimal(n)) == n
  {
    var r := Decimal(n);
    if n < 10 {
      assert r[..|r| - 1] == [];
    } else {
      DecimalRoundTrip(n / 10);
      assert r[..|r| - 1] == Decimal(n / 10);
    }
  }

  /** Distinct port numbers are written as distinct texts. */
  lemma DecimalInjective(m: nat, n: nat)
    requires Decimal(m) == Decimal(n)
    ensures m == n
  {
    DecimalRoundTrip(m);
    DecimalRoundTrip(n);
  }

  // ---------------------------------------------------------------- parseDSN

  const DefaultHost := "127.0.0.1"
  const DefaultPort := "5432"
  const DefaultUser := "postgres"
  const DefaultDatabase := "postgres"
  const DefaultSslMode := "disable"

  /** The fields parseDSN assembles into a postgres:// URL when neither dsn nor url is given. */
  datatype DsnFields = DsnFields(host: string, port: string, user: string, password: string,
                                 database: string, sslmode: string)

  /** What parseDSN resolves to: a connection string taken as given, or assembled fields. */
  datatype Dsn = Text(text: string) | Assembled(fields: DsnFields)

  /** The port chain of parseDSN: a string, then an int, then an int64, each overriding the one before. */
  function ResolvePort(setting: Setting): string {
    var port := TextOr(setting, "port", DefaultPort);
    var port := if "port" in setting && setting["port"].Int? && setting["port"].i > 0
                then Decimal(setting["port"].i) else port;
    var port := if "port" in setting && setting["port"].Int64? && setting["port"].i > 0
                then Decimal(setting["port"].i) else port;
    port
  }

  /** The port resolved from each kind of value "port" can hold. */
  lemma ResolvePortCases(setting: Setting)
    ensures "port" !in setting ==> ResolvePort(setting) == DefaultPort
    ensures "port" in setting ==> match setting["port"]
      case Str(s) => ResolvePort(setting) == (if s != "" then s else DefaultPort)
      case Int(v) => ResolvePort(setting) == (if v > 0 then Decimal(v) else DefaultPort)
      case Int64(v) => ResolvePort(setting) == (if v > 0 then Decimal(v) else DefaultPort)
      case Other => ResolvePort(setting) == DefaultPort
  {
  }

  /** The resolved port is never empty and, when it came from a number, is that number's decimal text. */
  lemma ResolvePortNumeric(setting: Setting)
    ensures ResolvePort(setting) != ""
    ensures "port" in setting && (setting["port"].Int? || setting["port"].Int64?) && setting["port"].i > 0 ==>
              DecimalValue(ResolvePort(setting)) == setting["port"].i
  {
    if "port" in setting && (setting["port"].Int? || setting["port"].Int64?) && setting["port"].i > 0 {
      DecimalRoundTrip(setting["port"].i);
    }
  }

  /** parseDSN, stopping at the resolved fields (URL encoding is not modelled). */
  function ParseDsn(setting: Setting): (r: Dsn)
    ensures HasText(setting, "dsn") ==> r == Text(setting["dsn"].s)
    ensures !HasText(setting, "dsn") && HasText(setting, "url") ==> r == Text(NormalizeUrl(setting["url"].s))
    ensures !HasText(setting, "dsn") && !HasText(setting, "url") ==> r.Assembled?
  {
    if HasText(setting, "dsn") then Text(setting["dsn"].s)
    else if HasText(setting, "url") then Text(NormalizeUrl(setting["url"].s))
    else
      var host := TextOr(setting, "host", DefaultHost);
      var port := ResolvePort(setting);
      var user := TextOr(setting, "username", DefaultUser);
      var user := TextOr(setting, "user", user);
      var password := StringOf(setting, "password").GetOr("");
      var database := TextOr(setting, "database", DefaultDatabase);
      var database := TextOr(setting, "dbname", database);
      var sslmode := TextOr(setting, "sslmode", DefaultSslMode);
      Assembled(DsnFields(host, port, user, password, database, sslmode))
  }

  /** Precedence and defaults of the assembled fields. */
  lemma ParseDsnFields(setting: Setting)
    requires !HasText(setting, "dsn") && !HasText(setting, "url")
    ensures var f := ParseDsn(setting).fields;
      && f.host == (if HasText(setting, "host") then setting["host"].s else DefaultHost)
      && f.port == ResolvePort(setting)
      && f.user == (if HasText(setting, "user") then setting["user"].s
                    else if HasText(setting, "username") then setting["username"].s
                    else DefaultUser)
      && f.password == (if StringOf(setting, "password").Some? then setting["password"].s else "")
      && f.database == (if HasText(setting, "dbname") then setting["dbname"].s
                        else if HasText(setting, "database") then setting["database"].s
                        else DefaultDatabase)
      && f.sslmode == (if HasText(setting, "sslmode") then setting["sslmode"].s else DefaultSslMode)
  {
  }

  /** With an empty settings map every field takes its documented default. */
  lemma ParseDsnDefaults()
    ensures ParseDsn(map[]) == Assembled(DsnFields(DefaultHost, DefaultPort, DefaultUser, "",
                                                   DefaultDatabase, DefaultSslMode))
  {
  }

  /** Every assembled field except the password is non-empty; the password may be the empty string. */
  lemma ParseDsnFieldsNonEmpty(setting: Setting)
    requires ParseDsn(setting).Assembled?
    ensures var f := ParseDsn(setting).fields;
      f.host != "" && f.port != "" && f.user != "" && f.database != "" && f.sslmode != ""
  {
    ResolvePortNumeric(setting);
  }

  // ---------------------------------------------------------------- Connection

  const DefaultSchema := "public"
  const DefaultJobsTable := "cron_jobs"
  const DefaultLogsTable := "cron_logs"
  const DefaultLocksTable := "cron_locks"

  /** The configuration a connection is built with. */
  datatype Config = Config(dsn: Dsn, schema: string, jobsTable: string, logsTable: string, locksTable: string)

  /** The driver's Connection: the DSN plus schema and table names, each a non-empty override or its default. */
  function ResolveConfig(setting: Setting): (c: Config)
    ensures c.dsn == ParseDsn(setting)
    ensures c.schema != "" && c.jobsTable != "" && c.logsTable != "" && c.locksTable != ""
    ensures c.schema == (if HasText(setting, "schema") then setting["schema"].s else DefaultSchema)
    ensures c.jobsTable == (if HasText(setting, "jobs_table") then setting["jobs_table"].s else DefaultJobsTable)
    ensures c.logsTable == (if HasText(setting, "logs_table") then setting["logs_table"].s else DefaultLogsTable)
    ensures c.locksTable == (if HasText(setting, "locks_table") then setting["locks_table"].s else DefaultLocksTable)
  {
    Config(ParseDsn(setting),
           TextOr(setting, "schema", DefaultSchema),
           TextOr(setting, "jobs_table", DefaultJobsTable),
           TextOr(setting, "logs_table", DefaultLogsTable),
           TextOr(setting, "locks_table", DefaultLocksTable))
  }

  /** jobsTableSQL */
  function JobsTableSql(c: Config): (r: string)
    ensures Ident.ParseQualified(r) == Some((c.schema, c.jobsTable))
  {
    Ident.ParseQualifiedName(c.schema, c.jobsTable);
    Ident.QualifiedName(c.schema, c.jobsTable)
  }

  /** logsTableSQL */
  function LogsTableSql(c: Config): (r: string)
    ensures Ident.ParseQualified(r) == Some((c.schema, c.logsTable))
  {
    Ident.ParseQualifiedName(c.schema, c.logsTable);
    Ident.QualifiedName(c.schema, c.logsTable)
  }

  /** locksTableSQL */
  function LocksTableSql(c: Config): (r: string)
    ensures Ident.ParseQualified(r) == Some((c.schema, c.locksTable))
  {
    Ident.ParseQualifiedName(c.schema, c.locksTable);
    Ident.QualifiedName(c.schema, c.locksTable)
  }

  /** With distinct table names the three statements address three distinct tables. */
  lemma TableSqlDistinct(c: Config)
    requires c.jobsTable != c.logsTable && c.logsTable != c.locksTable && c.jobsTable != c.locksTable
    ensures JobsTableSql(c) != LogsTableSql(c) && LogsTableSql(c) != LocksTableSql(c)
            && JobsTableSql(c) != LocksTableSql(c)
  {
  }
}
