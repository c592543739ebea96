/** Double-quote identifier quoting (quoteIdent) and the schema-qualified
    table names built from it (jobsTableSQL, logsTableSQL, locksTableSQL). */
module Ident {
  import opened Common

  const Quote: char := '"'

  /** Number of double quotes in s. */
  function QuoteCount(s: string): nat {
    if s == [] then 0 else (if s[0] == Quote then 1 else 0) + QuoteCount(s[1..])
  }

  /** strings.ReplaceAll(name, `"`, `""`): every double quote doubled. */
  function Escape(name: string): string {
    if name == [] then []
    else if name[0] == Quote then [Quote, Quote] + Escape(name[1..])
    else [name[0]] + Escape(name[1..])
  }

  /** quoteIdent: the escaped name between two double quotes. */
  function QuoteIdent(name: string): (r: string)
    ensures |r| >= 2 && r[0] == Quote && r[|r| - 1] == Quote
    ensures r[1..|r| - 1] == Escape(name)
  {
    [Quote] + Escape(name) + [Quote]
  }

  /** Reads the body of a quoted identifier (everything after the opening quote):
      a doubled quote stands for one quote, a single quote closes the identifier.
      Returns the identifier and what follows the closing quote. */
  function ReadBody(s: string): Option<(string, string)> {
    if s == [] then None
    else if s[0] == Quote then
      if |s| > 1 && s[1] == Quote then
        match ReadBody(s[2..])
        case Some((n, rest)) => Some(([Quote] + n, rest))
        case None => None
      else Some(([], s[1..]))
    else
      match ReadBody(s[1..])
      case Some((n, rest)) => Some(([s[0]] + n, rest))
      case None => None
  }

  /** Reads one quoted identifier from the front of s. */
  function ReadQuoted(s: string): Option<(string, string)> {
    if s != [] && s[0] == Quote then ReadBody(s[1..]) else None
  }

  /** The identifier a complete quoted identifier stands for. */
  function Unquote(s: string): Option<string> {
    match ReadQuoted(s)
    case Some((n, rest)) => if rest == [] then Some(n) else None
    case None => None
  }

  /** "schema"."table", as the three *TableSQL builders write it. */
  function QualifiedName(schema: string, table: string): (r: string)
    ensures |r| == |QuoteIdent(schema)| + 1 + |QuoteIdent(table)|
    ensures r[0] == Quote && r[|r| - 1] == Quote
  {
    QuoteIdent(schema) + "." + QuoteIdent(table)
  }

  /** Splits a qualified name back into its schema and table. */
  function ParseQualified(s: string): Option<(string, string)> {
    match ReadQuoted(s)
    case Some((schema, rest)) =>
      if rest != [] && rest[0] == '.' then
        match Unquote(rest[1..])
        case Some(table) => Some((schema, table))
        case None => None
      else None
    case None => None
  }

  lemma {:induction false} EscapeLength(name: string)
    ensures |Escape(name)| == |name| + QuoteCount(name)
  {
    if name != [] {
      EscapeLength(name[1..]);
    }
  }

  /** The quoted identifier is the name plus two quotes plus one more character per embedded quote. */
  lemma QuoteIdentLength(name: string)
    ensures |QuoteIdent(name)| == |name| + 2 + QuoteCount(name)
  {
    EscapeLength(name);
  }

  /** Reading the escaped body followed by the closing quote gives the name back and stops
      exactly at the closing quote, provided the next character cannot be mistaken for a doubled quote. */
  lemma {:induction false} ReadBodyEscape(name: string, rest: string)
    requires rest == [] || rest[0] != Quote
    ensures ReadBody(Escape(name) + [Quote] + rest) == Some((name, rest))
  {
    if name == [] {
      assert Escape(name) + [Quote] + rest == [Quote] + rest;
    } else {
      var tail := Escape(name[1..]) + [Quote] + rest;
      ReadBodyEscape(name[1..], rest);
      assert name == [name[0]] + name[1..];
      if name[0] == Quote {
        var s := [Quote, Quote] + tail;
        assert Escape(name) + [Quote] + rest == s;
        assert s[0] == Quote && |s| > 1 && s[1] == Quote && s[2..] == tail;
      } else {
        var s := [name[0]] + tail;
        assert Escape(name) + [Quote] + rest == s;
        assert s[0] != Quote && s[1..] == tail;
      }
    }
  }

  /** A quoted identifier followed by text that does not start with a quote reads back as that identifier. */
  lemma ReadQuotedIdent(name: string, rest: string)
    requires rest == [] || rest[0] != Quote
    ensures ReadQuoted(QuoteIdent(name) + rest) == Some((name, rest))
  {
    var s := QuoteIdent(name) + rest;
    assert s[1..] == Escape(name) + [Quote] + rest;
    ReadBodyEscape(name, rest);
  }

  /** Round trip: unquoting a quoted identifier gives the identifier back. */
  lemma UnquoteQuoteIdent(name: string)
    ensures Unquote(QuoteIdent(name)) == Some(name)
  {
    ReadQuotedIdent(name, []);
    assert QuoteIdent(name) + [] == QuoteIdent(name);
  }

  /** quoteIdent is injective: distinct identifiers never quote to the same text. */
  lemma QuoteIdentInjective(a: string, b: string)
    requires QuoteIdent(a) == QuoteIdent(b)
    ensures a == b
  {
    UnquoteQuoteIdent(a);
    UnquoteQuoteIdent(b);
  }

  /** The qualified name is unambiguous: schema and table can be read back from it,
      whatever quotes or dots they contain. */
  lemma ParseQualifiedName(schema: string, table: string)
    ensures ParseQualified(QualifiedName(schema, table)) == Some((schema, table))
  {
    var rest := "." + QuoteIdent(table);
    assert QualifiedName(schema, table) == QuoteIdent(schema) + rest;
    ReadQuotedIdent(schema, rest);
    assert rest[1..] == QuoteIdent(table);
    UnquoteQuoteIdent(table);
  }

  /** Hence two qualified names are equal only when both schemas and both tables are. */
  lemma QualifiedNameInjective(s1: string, t1: string, s2: string, t2: string)
    requires QualifiedName(s1, t1) == QualifiedName(s2, t2)
    ensures s1 == s2 && t1 == t2
  {
    ParseQualifiedName(s1, t1);
    ParseQualifiedName(s2, t2);
  }
}
