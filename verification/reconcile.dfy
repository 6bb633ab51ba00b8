/**
 * The nightly jobs on the person and committee tables: the e-mail
 * reconciliation against the three directories, the repair of names that
 * hold an e-mail address, and the removal of stray top-level committees.
 *
 * The directories are oracles: functions from the address searched for to
 * the Delta response, the first school-directory row's `Skole` value, and
 * the users Microsoft Graph returns. They do not change during a run.
 */
module Reconciliation {
  import opened Wrappers
  import opened Text
  import opened Legacy
  import Directory
  import Delta
  import Graph

  datatype Directories = Directories(
    delta: string -> Delta.Response,
    school: string -> Option<Option<string>>,
    graph: string -> seq<Graph.User>)

  /** What `delta_client.search(email=e)` returns for a non-empty address. */
  function DeltaHits(dirs: Directories, e: string): seq<Directory.Record> {
    var response := dirs.delta(e);
    if response.graphQueryResult == [] then []
    else Delta.ParseAll(response.graphQueryResult[0].instances, None).0
  }

  /** Every Delta hit carries a real e-mail address and department. */
  lemma DeltaHitsHaveContact(dirs: Directories, e: string)
    ensures forall r | r in DeltaHits(dirs, e) :: r.email != [] && r.department != []
  {
    var response := dirs.delta(e);
    if response.graphQueryResult != [] {
      Delta.ParsedRecordsHaveContact(response.graphQueryResult[0].instances, None);
    }
  }

  /** An address with both an `@` and a `.`. */
  predicate WellFormed(e: string) {
    '@' in e && '.' in e
  }

  /**
   * `UPDATE person SET … WHERE email = :old_email`: a new address (which
   * also sets `isystem`), `isystem` alone, and a new `omraade`.
   */
  datatype Update = Update(newEmail: Option<string>, markFound: bool, newArea: Option<Option<string>>)

  /** Why the run stops: `search(email="")` raises. */
  datatype Abort = EmptyAddressSearched

  /**
   * The Graph branch as written: the first user's `E-mail` field, which is
   * `'-'` when the user has no `mail`, becomes the new address when it is
   * not empty and differs.
   */
  function GraphEmailAsWritten(e: string, users: seq<Graph.User>): (r: Option<string>)
    ensures |users| != 1 ==> r.None?
    ensures |users| == 1 && users[0].mail.None? && e != "-" ==> r == Some("-")
    ensures |users| == 1 && users[0].mail.Some? ==>
      r == (if users[0].mail.value != [] && users[0].mail.value != e then users[0].mail else None)
  {
    if |users| == 1 then
      var candidate := Graph.UserRecord(users[0]).email;
      if candidate != [] && candidate != e then Some(candidate) else None
    else None
  }

  /** A Graph user without a `mail` makes the person's address `'-'`. */
  lemma GraphPlaceholderBecomesEmail()
    ensures GraphEmailAsWritten("ann@kommune.dk", [Graph.User(Some("Ann"), None, None, None)]) == Some("-")
  {
  }

  /** The Graph branch taking the user's `mail` itself, and nothing when there is none. */
  function GraphEmail(e: string, users: seq<Graph.User>): (r: Option<string>)
    ensures r.Some? ==> |users| == 1 && users[0].mail == r && r.value != [] && r.value != e
  {
    if |users| == 1 && users[0].mail.Some? && users[0].mail.value != [] && users[0].mail.value != e then users[0].mail
    else None
  }

  /** The two agree on every user that has a `mail`. */
  lemma GraphEmailAgrees(e: string, users: seq<Graph.User>)
    requires forall u | u in users :: u.mail.Some?
    ensures GraphEmail(e, users) == GraphEmailAsWritten(e, users)
  {
  }

  /**
   * The decision for one person (address `e`, area `omraade` as read at
   * the start): nothing, an update of every row with that address, or the
   * end of the run.
   */
  function Decide(e: string, omraade: Option<string>, dirs: Directories): (r: Result<Option<Update>, Abort>)
    // the run only stops on an empty address
    ensures r.Failure? <==> e == []
    // an update never sets an address that is empty or the old one
    ensures r.Success? && r.value.Some? && r.value.value.newEmail.Some? ==>
      var n := r.value.value.newEmail.value; n != [] && n != e && r.value.value.markFound
  {
    if !WellFormed(e) then
      if e == [] then Failure(EmptyAddressSearched)
      else
        var hits := DeltaHits(dirs, e);
        if |hits| == 1 then
          var newEmail := if hits[0].email != [] then Some(hits[0].email) else None;
          var department := hits[0].department;
          var setEmail := newEmail.Some? && newEmail.value != e;
          var setArea := department != [] && omraade != Some(department);
          if setEmail || setArea then
            Success(Some(Update(if setEmail then newEmail else None, setEmail, if setArea then Some(Some(department)) else None)))
          else Success(None)
        else Success(None)
    else if |DeltaHits(dirs, e)| == 0 then
      match dirs.school(Lower(e))
      case Some(skole) => Success(Some(Update(None, true, Some(skole))))
      case None =>
        match GraphEmailAsWritten(e, dirs.graph(e))
        case Some(n) => Success(Some(Update(Some(n), true, None)))
        case None => Success(None)
    else
      var hits := DeltaHits(dirs, e);
      var area := if |hits| == 1 then hits[0].department else [];
      if area != [] then Success(Some(Update(None, true, Some(Some(area)))))
      else Success(Some(Update(None, true, None)))
  }

  /**
   * A new address always comes from a directory: Delta's single hit, or
   * the record of Graph's single user, which is `'-'` when that user has
   * no `mail`.
   */
  lemma NewEmailFromDirectory(e: string, omraade: Option<string>, dirs: Directories)
    requires Decide(e, omraade, dirs).Success? && Decide(e, omraade, dirs).value.Some?
    ensures var u := Decide(e, omraade, dirs).value.value;
      u.newEmail.Some? ==>
        || (!WellFormed(e) && |DeltaHits(dirs, e)| == 1 && u.newEmail.value == DeltaHits(dirs, e)[0].email)
        || (WellFormed(e) && |dirs.graph(e)| == 1
            && u.newEmail.value == (if dirs.graph(e)[0].mail.Some? then dirs.graph(e)[0].mail.value else "-"))
  {
  }

  /**
   * A well-formed address that neither Delta nor the school directory
   * knows, whose Graph search finds a single user without `mail`, is
   * replaced by the placeholder `'-'` and marked as found.
   */
  lemma DecideStoresPlaceholder(e: string, omraade: Option<string>, dirs: Directories)
    requires WellFormed(e) && |DeltaHits(dirs, e)| == 0 && dirs.school(Lower(e)).None?
    requires |dirs.graph(e)| == 1 && dirs.graph(e)[0].mail.None?
    ensures Decide(e, omraade, dirs) == Success(Some(Update(Some("-"), true, None)))
  {
    assert e != "-" by { assert '@' in e && '@' !in "-"; }
  }

  /**
   * A well-formed address that Delta does not know but the school directory
   * does (compared in lower case) is marked as found and gets the school as
   * its area, which may be NULL; its address stays.
   */
  lemma DecideBySchool(e: string, omraade: Option<string>, dirs: Directories)
    requires WellFormed(e) && |DeltaHits(dirs, e)| == 0 && dirs.school(Lower(e)).Some?
    ensures Decide(e, omraade, dirs) == Success(Some(Update(None, true, Some(dirs.school(Lower(e)).value))))
  {
  }

  /**
   * A well-formed address that neither Delta nor the school directory knows
   * changes only when the Graph search finds exactly one user; a user with
   * a real `mail` other than the address gives that address and marks the
   * person as found.
   */
  lemma DecideByGraph(e: string, omraade: Option<string>, dirs: Directories)
    requires WellFormed(e) && |DeltaHits(dirs, e)| == 0 && dirs.school(Lower(e)).None?
    ensures |dirs.graph(e)| != 1 ==> Decide(e, omraade, dirs) == Success(None)
    ensures (|dirs.graph(e)| == 1 && dirs.graph(e)[0].mail.Some? && dirs.graph(e)[0].mail.value != []
             && dirs.graph(e)[0].mail.value != e) ==>
      Decide(e, omraade, dirs) == Success(Some(Update(dirs.graph(e)[0].mail, true, None)))
    ensures |dirs.graph(e)| == 1 && dirs.graph(e)[0].mail == Some(e) ==> Decide(e, omraade, dirs) == Success(None)
  {
  }

  /**
   * A malformed address changes only when Delta finds exactly one person.
   * With a single hit, the hit's address replaces it when different, which
   * alone sets `isystem`, and the hit's department becomes the area when it
   * is non-empty and differs from the old one. A well-formed address that
   * Delta knows is always marked as found, and gets a new area only from a
   * single hit.
   */
  lemma DecideByDelta(e: string, omraade: Option<string>, dirs: Directories)
    requires e != []
    ensures !WellFormed(e) && |DeltaHits(dirs, e)| != 1 ==> Decide(e, omraade, dirs) == Success(None)
    ensures !WellFormed(e) && |DeltaHits(dirs, e)| == 1 ==>
      var h := DeltaHits(dirs, e)[0];
      var r := Decide(e, omraade, dirs);
      && r.Success?
      && (r.value.Some? <==> h.email != e || (h.department != [] && omraade != Some(h.department)))
      && (r.value.Some? ==>
            && (r.value.value.newEmail.Some? <==> h.email != e)
            && (r.value.value.newEmail.Some? ==> r.value.value.newEmail.value == h.email)
            && (r.value.value.markFound <==> r.value.value.newEmail.Some?)
            && (r.value.value.newArea.Some? <==> h.department != [] && omraade != Some(h.department))
            && (r.value.value.newArea.Some? ==> r.value.value.newArea.value == Some(h.department)))
    ensures WellFormed(e) && |DeltaHits(dirs, e)| > 0 ==>
      var r := Decide(e, omraade, dirs);
      && r.Success? && r.value.Some? && r.value.value.markFound && r.value.value.newEmail.None?
      && (r.value.value.newArea.Some? <==> |DeltaHits(dirs, e)| == 1)
    ensures WellFormed(e) && |DeltaHits(dirs, e)| == 1 ==>
      Decide(e, omraade, dirs) == Success(Some(Update(None, true, Some(Some(DeltaHits(dirs, e)[0].department)))))
  {
    DeltaHitsHaveContact(dirs, e);
  }

  /** `UPDATE … WHERE email = :e`: every row with that address changes, every other row stays. */
  function Apply(persons: map<int, Person>, e: string, u: Update): (r: map<int, Person>)
    ensures r.Keys == persons.Keys
    ensures forall p | p in persons && persons[p].email != Some(e) :: r[p] == persons[p]
    ensures forall p | p in persons ::
      && r[p].name == persons[p].name && r[p].username == persons[p].username
      && r[p].unionId == persons[p].unionId
      && (persons[p].inSystem ==> r[p].inSystem)
  {
    map p | p in persons ::
      if persons[p].email == Some(e) then
        var q := persons[p];
        var q1 := if u.newEmail.Some? then q.(email := u.newEmail, inSystem := true) else q;
        var q2 := if u.markFound then q1.(inSystem := true) else q1;
        if u.newArea.Some? then q2.(area := u.newArea.value) else q2
      else persons[p]
  }

  /** A row of `SELECT email, omraade FROM person WHERE email IS NOT NULL`. */
  datatype SnapshotRow = SnapshotRow(email: string, omraade: Option<string>)

  /** The rows read at the start, in the order `order` gives the persons with an address. */
  function Snapshot(persons: map<int, Person>, order: seq<int>): (rows: seq<SnapshotRow>)
    requires forall i | 0 <= i < |order| :: order[i] in persons && persons[order[i]].email.Some?
    ensures |rows| == |order|
  {
    seq(|order|, i requires 0 <= i < |order| => SnapshotRow(persons[order[i]].email.value, persons[order[i]].area))
  }

  /** The table after the snapshot rows `rows` were processed, and whether the run stopped. */
  function CleanAfter(persons: map<int, Person>, rows: seq<SnapshotRow>, dirs: Directories): (map<int, Person>, bool)
    decreases |rows|
  {
    if rows == [] then (persons, false)
    else
      var (t, stopped) := CleanAfter(persons, rows[..|rows| - 1], dirs);
      var row := rows[|rows| - 1];
      if stopped then (t, true)
      else match Decide(row.email, row.omraade, dirs)
        case Failure(_) => (t, true)
        case Success(None) => (t, false)
        case Success(Some(u)) => (Apply(t, row.email, u), false)
  }

  /** Once the run stopped, the rows after change nothing. */
  lemma {:induction false} StoppedStays(persons: map<int, Person>, rows: seq<SnapshotRow>, k: nat, dirs: Directories)
    requires k <= |rows|
    requires CleanAfter(persons, rows[..k], dirs).1
    ensures CleanAfter(persons, rows, dirs) == CleanAfter(persons, rows[..k], dirs)
    decreases |rows|
  {
    if k < |rows| {
      var front := rows[..|rows| - 1];
      assert front[..k] == rows[..k];
      StoppedStays(persons, front, k, dirs);
    } else {
      assert rows[..k] == rows;
    }
  }

  /**
   * The reconciliation never marks anyone as not found, never adds or
   * removes a person and never touches names, user names or unions.
   */
  lemma {:induction false} CleanKeepsFound(persons: map<int, Person>, rows: seq<SnapshotRow>, dirs: Directories)
    ensures var t := CleanAfter(persons, rows, dirs).0;
      && t.Keys == persons.Keys
      && forall p | p in persons ::
        && t[p].name == persons[p].name && t[p].username == persons[p].username
        && t[p].unionId == persons[p].unionId
        && (persons[p].inSystem ==> t[p].inSystem)
    decreases |rows|
  {
    if rows != [] {
      CleanKeepsFound(persons, rows[..|rows| - 1], dirs);
    }
  }

  /** `clean`: one decision and one committed update per snapshot row, until a search raises. */
  method Clean(persons: map<int, Person>, order: seq<int>, dirs: Directories) returns (result: map<int, Person>, stopped: bool)
    requires forall i | 0 <= i < |order| :: order[i] in persons && persons[order[i]].email.Some?
    ensures (result, stopped) == CleanAfter(persons, Snapshot(persons, order), dirs)
  {
    var rows := Snapshot(persons, order);
    result, stopped := CleanRows(persons, rows, dirs);
  }

  /** The loop of `clean` over the snapshot rows. */
  method CleanRows(persons: map<int, Person>, rows: seq<SnapshotRow>, dirs: Directories) returns (result: map<int, Person>, stopped: bool)
    ensures (result, stopped) == CleanAfter(persons, rows, dirs)
  {
    result, stopped := persons, false;
    var i := 0;
    while i < |rows|
      invariant 0 <= i <= |rows|
      invariant (result, stopped) == CleanAfter(persons, rows[..i], dirs)
      invariant !stopped
    {
      var row := rows[i];
      assert rows[..i + 1][..i] == rows[..i];
      var d := Decide(row.email, row.omraade, dirs);
      if d.Failure? {
        stopped := true;
        StoppedStays(persons, rows, i + 1, dirs);
        return;
      }
      if d.value.Some? {
        result := Apply(result, row.email, d.value.value);
      }
      i := i + 1;
    }
    assert rows[..i] == rows;
  }

  // ---------------------------------------------------------------------
  // fix_names

  /** `REPLACE(SPLIT_PART(navn, '@', 1), '.', ' ')` for a name containing `@`. */
  function FixName(name: string): (r: string)
    ensures '@' !in r
    ensures '@' in name ==> '.' !in r && |r| < |name|
    ensures '@' !in name ==> r == name
  {
    if '@' in name then ReplaceChar(BeforeFirst(name, '@'), '.', ' ') else name
  }

  /** A repaired name is left alone by the next run. */
  lemma FixNameIdempotent(name: string)
    ensures FixName(FixName(name)) == FixName(name)
  {
  }

  /** `fix_names`: every person's name repaired, nothing else changed. */
  function FixNames(persons: map<int, Person>): (r: map<int, Person>)
    ensures r.Keys == persons.Keys
    ensures forall p | p in persons :: r[p] == persons[p].(name := FixName(persons[p].name))
    ensures forall p | p in r :: '@' !in r[p].name
  {
    map p | p in persons :: persons[p].(name := FixName(persons[p].name))
  }

  lemma FixNamesIdempotent(persons: map<int, Person>)
    ensures FixNames(FixNames(persons)) == FixNames(persons)
  {
    var once := FixNames(persons);
    forall p | p in once
      ensures FixNames(once)[p] == once[p]
    {
      FixNameIdempotent(persons[p].name);
    }
  }

  // ---------------------------------------------------------------------
  // delete_udvalg_without_parent

  const TopCommitteeName := "HOVEDUDVALG"

  /**
   * `DELETE FROM udvalg WHERE overordnetudvalg IS NULL AND udvalg <>
   * 'HOVEDUDVALG'`: the other committees keep their rows unchanged, even
   * when their parent is deleted.
   */
  function DeleteWithoutParent(udvalg: map<int, Udvalg>): (r: map<int, Udvalg>)
    ensures r.Keys <= udvalg.Keys
    ensures forall c | c in udvalg :: c in r <==> udvalg[c].parent.Some? || udvalg[c].name == TopCommitteeName
    ensures forall c | c in r :: r[c] == udvalg[c]
    ensures forall c | c in r && r[c].parent.None? :: r[c].name == TopCommitteeName
  {
    map c | c in udvalg && (udvalg[c].parent.Some? || udvalg[c].name == TopCommitteeName) :: udvalg[c]
  }

  lemma DeleteWithoutParentIdempotent(udvalg: map<int, Udvalg>)
    ensures DeleteWithoutParent(DeleteWithoutParent(udvalg)) == DeleteWithoutParent(udvalg)
  {
  }
}
