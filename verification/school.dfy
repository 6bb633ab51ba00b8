/**
 * The person search in the school directory database: the WHERE clauses
 * built from the search parameters, the rows the query selects, and the
 * records made from them.
 *
 * The directory's `person` table is a parameter, in the order the
 * database returns its rows. A NULL column value is None.
 */
module SchoolDirectory {
  import opened Wrappers
  import opened Text
  import opened Directory

  /** A row of the directory's `person` table: `DQnummer`, `Navn`, `Mail`, `Skole`. */
  datatype AdPerson = AdPerson(dq: Option<string>, navn: Option<string>, mail: Option<string>, skole: Option<string>)

  /**
   * One search clause with its lower-cased parameter:
   * `LOWER("DQnummer") = :username`, `LOWER("Navn") LIKE '%name%'` and
   * `LOWER("Mail") = :email`.
   */
  datatype Clause = UsernameIs(username: string) | NameContains(part: string) | MailIs(mail: string)

  /** The clauses of a search, in the order user name, name, e-mail. */
  function Clauses(username: Option<string>, name: Option<string>, email: Option<string>): (clauses: seq<Clause>)
    ensures |clauses| <= 3
    ensures clauses == [] <==> !Truthy(username) && !Truthy(name) && !Truthy(email)
    ensures Truthy(username) ==> UsernameIs(Lower(username.value)) in clauses
    ensures Truthy(name) ==> NameContains(Lower(name.value)) in clauses
    ensures Truthy(email) ==> MailIs(Lower(email.value)) in clauses
    ensures forall c | c in clauses ::
      || (c.UsernameIs? && Truthy(username) && c.username == Lower(username.value))
      || (c.NameContains? && Truthy(name) && c.part == Lower(name.value))
      || (c.MailIs? && Truthy(email) && c.mail == Lower(email.value))
  {
    (if Truthy(username) then [UsernameIs(Lower(username.value))] else [])
    + (if Truthy(name) then [NameContains(Lower(name.value))] else [])
    + (if Truthy(email) then [MailIs(Lower(email.value))] else [])
  }

  /** Whether a row satisfies one clause; a NULL column satisfies none. */
  predicate Holds(c: Clause, p: AdPerson) {
    match c
    case UsernameIs(u) => p.dq.Some? && Lower(p.dq.value) == u
    case NameContains(n) => p.navn.Some? && IsSubstring(n, Lower(p.navn.value))
    case MailIs(m) => p.mail.Some? && Lower(p.mail.value) == m
  }

  /** The clauses are joined with OR: a row is selected when any of them holds. */
  predicate Selected(clauses: seq<Clause>, p: AdPerson) {
    exists c | c in clauses :: Holds(c, p)
  }

  /** The selected rows, in the table's order. */
  function Matching(table: seq<AdPerson>, clauses: seq<Clause>): (r: seq<AdPerson>)
    ensures |r| <= |table|
    ensures forall p :: p in r <==> p in table && Selected(clauses, p)
  {
    if table == [] then []
    else
      var rest := Matching(table[1..], clauses);
      assert forall p :: p in table <==> p == table[0] || p in table[1..];
      if Selected(clauses, table[0]) then [table[0]] + rest else rest
  }

  /** `LIMIT 10` */
  const Limit: nat := 10

  /**
   * The keys of a result row: PostgreSQL folds the unquoted alias
   * `Brugernavn` to `brugernavn` and keeps `email`; the quoted `"Navn"` and
   * `"Skole"` keep their case.
   */
  function ResultRow(p: AdPerson): map<string, Option<string>> {
    map["brugernavn" := p.dq, "Navn" := p.navn, "email" := p.mail, "Skole" := p.skole]
  }

  /** `row.get(key, default)` */
  function Get(row: map<string, Option<string>>, key: string, default: Option<string>): Option<string> {
    if key in row then row[key] else default
  }

  /** A school record: `Brugernavn`, `Navn`, `E-mail`, `Afdeling`. */
  datatype SchoolRecord = SchoolRecord(username: Option<string>, name: Option<string>, email: Option<string>, department: Option<string>)

  /** The row mapping as written: the user name is read under the key `Brugernavn`. */
  function MapRowAsWritten(row: map<string, Option<string>>): (r: SchoolRecord)
    requires "Navn" in row && "email" in row
    ensures r.name == row["Navn"] && r.email == row["email"]
    // a key the row lacks reads as the empty string
    ensures r.username == (if "Brugernavn" in row then row["Brugernavn"] else Some(""))
    ensures r.department == (if "Skole" in row then row["Skole"] else Some(""))
  {
    SchoolRecord(Get(row, "Brugernavn", Some("")), row["Navn"], row["email"], Get(row, "Skole", Some("")))
  }

  /**
   * As written, every record's user name is the default `""`, whatever
   * `DQnummer` holds; the other columns come through.
   */
  lemma AsWrittenDropsUsername(p: AdPerson)
    ensures MapRowAsWritten(ResultRow(p)) == SchoolRecord(Some(""), p.navn, p.mail, p.skole)
    ensures p.dq == Some("dq1234") ==> MapRowAsWritten(ResultRow(p)).username != p.dq
  {
    assert "Brugernavn" != "brugernavn";
    assert "Brugernavn" !in ResultRow(p);
    assert "Skole" in ResultRow(p);
    assert "Skole" != "Navn" && "Skole" != "email";
  }

  /** The row mapping reading the user name under the key the database gives it. */
  function MapRow(row: map<string, Option<string>>): SchoolRecord
    requires "Navn" in row && "email" in row
  {
    SchoolRecord(Get(row, "brugernavn", Some("")), row["Navn"], row["email"], Get(row, "Skole", Some("")))
  }

  /**
   * The corrected mapping gives every column of the row back; in
   * particular `Afdeling` is the school, NULL included: its `""` default
   * never applies because the key is always present.
   */
  lemma MapRowKeepsColumns(p: AdPerson)
    ensures MapRow(ResultRow(p)) == SchoolRecord(p.dq, p.navn, p.mail, p.skole)
  {
    assert "brugernavn" in ResultRow(p) && "Skole" in ResultRow(p);
    assert "brugernavn" != "Navn" && "brugernavn" != "email" && "brugernavn" != "Skole";
    assert "Skole" != "Navn" && "Skole" != "email";
  }

  /**
   * `search_person`: an error without any parameter; otherwise the record
   * of each of the first ten selected rows, whose user name is always
   * `""` (see `AsWrittenDropsUsername`).
   */
  method SearchPerson(username: Option<string>, name: Option<string>, email: Option<string>, table: seq<AdPerson>)
    returns (r: Result<seq<SchoolRecord>, SearchError>)
    ensures r.Failure? <==> !Truthy(username) && !Truthy(name) && !Truthy(email)
    ensures r.Success? ==> |r.value| <= Limit
    ensures r.Success? ==>
      var rows := Matching(table, Clauses(username, name, email));
      && |r.value| == (if |rows| <= Limit then |rows| else Limit)
      && forall i | 0 <= i < |r.value| :: r.value[i] == SchoolRecord(Some(""), rows[i].navn, rows[i].mail, rows[i].skole)
  {
    var clauses := Clauses(username, name, email);
    if clauses == [] {
      return Failure(NoSearchParameter);
    }
    var rows := Matching(table, clauses);
    var selected := if |rows| <= Limit then rows else rows[..Limit];
    var records := seq(|selected|, i requires 0 <= i < |selected| => MapRowAsWritten(ResultRow(selected[i])));
    forall i | 0 <= i < |records|
      ensures records[i] == SchoolRecord(Some(""), rows[i].navn, rows[i].mail, rows[i].skole)
    {
      AsWrittenDropsUsername(selected[i]);
    }
    r := Success(records);
  }
}
