/**
 * The tables the front page, the first app and the nightly jobs work on
 * with plain SQL: `udvalg` (committees with a free-text type), `person`
 * and `personrolle` (who holds which role in which committee).
 *
 * No constraint of these tables is declared in the code, so the model
 * assumes none beyond the primary keys: every statement acts on all rows
 * its WHERE clause matches, and two persons may share an e-mail address.
 * `personrolle` is a set of triples, the unique key that its
 * `ON CONFLICT DO NOTHING` insert relies on.
 */
module Legacy {
  import opened Wrappers
  import opened Hierarchy

  /** `udvalg`: name (`udvalg`), parent (`overordnetudvalg`), type. */
  datatype Udvalg = Udvalg(name: string, parent: Option<int>, kind: Option<string>)

  /**
   * `person`: `navn`, `email`, `brugernavn`, `fagid` (union), `isystem`
   * (found in a directory) and `omraade` (area).
   */
  datatype Person = Person(
    name: string,
    email: Option<string>,
    username: Option<string>,
    unionId: Option<int>,
    inSystem: bool,
    area: Option<string>)

  /** `personrolle`: (`personid`, `rolleid`, `udvalgsid`). */
  datatype PersonRole = PersonRole(personId: int, roleId: int, committeeId: int)

  datatype LegacyTables = LegacyTables(
    udvalg: map<int, Udvalg>,
    persons: map<int, Person>,
    personRoles: set<PersonRole>)

  /** The parent pointers of the committee table. */
  function Parents(udvalg: map<int, Udvalg>): (pm: ParentMap)
    ensures pm.Keys == udvalg.Keys
  {
    map c | c in udvalg :: udvalg[c].parent
  }

  /** `SELECT personid FROM personrolle` */
  function Holders(prs: set<PersonRole>): set<int> {
    set r | r in prs :: r.personId
  }

  /** The keys of the persons with this e-mail address (`WHERE email = :email`). */
  function WithEmail(persons: map<int, Person>, email: string): set<int> {
    set p | p in persons && persons[p].email == Some(email)
  }

  /** Every key is below `next`, so `next` is a fresh key. */
  predicate KeysBelow(t: LegacyTables, next: int) {
    (forall k | k in t.udvalg :: k < next) && (forall k | k in t.persons :: k < next)
  }
}
