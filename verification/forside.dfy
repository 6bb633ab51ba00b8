/**
 * The front page's editing flows, written as SQL statements against the
 * committee, person and role-holder tables: adding and removing members,
 * deleting, creating, renaming, retyping and moving committees, and the
 * committee search.
 *
 * Each flow is a specification function on `LegacyTables` (or a decision
 * function that says whether the form's input is accepted) and a method of
 * `LegacyDb` that runs the statements and is proved to reach the state the
 * function describes.
 */
module FrontPage {
  import opened Wrappers
  import opened Text
  import opened Hierarchy
  import opened Legacy

  /** Why a form was refused. */
  datatype Rejection =
    | EmptyName        // "Navnet må ikke være tomt."
    | NameUnchanged    // "Navnet er uændret."
    | NameTaken        // a committee with that name (ignoring case) exists
    | NoNewParent      // "Vælg et nyt overordnet udvalg."
    | TypeNotOffered   // the current type is not one of the selectable types
    | TypeUnchanged    // "Typen er uændret."
    | WouldCreateCycle // the new parent is the committee's own descendant

  /** A statement the database refuses. */
  datatype SqlError = SubqueryReturnedSeveralRows

  /** A person found in a directory search: name, e-mail, user name. */
  datatype Candidate = Candidate(name: string, email: string, username: string)

  // ---------------------------------------------------------------------
  // Adding a member

  /**
   * `SELECT id, fagid FROM person WHERE email = :email` with `fetchone()`:
   * some person with that address, or None when there is none. Which of
   * several such persons comes first is the database's choice.
   */
  predicate FetchedRow(persons: map<int, Person>, email: string, found: Option<int>) {
    if found.Some? then found.value in WithEmail(persons, email) else WithEmail(persons, email) == {}
  }

  /**
   * Adding `who` with a role to a committee: a known person gets the chosen
   * union (and is marked as found) only when a union is chosen and differs;
   * an unknown one is inserted as found; the role is inserted with
   * `ON CONFLICT DO NOTHING`. Yields the tables and the person's key.
   */
  function AddMemberSpec(t: LegacyTables, who: Candidate, roleId: int, committeeId: int,
                         union: Option<int>, found: Option<int>, newId: int): (r: (LegacyTables, int))
    requires found.Some? ==> found.value in t.persons
    ensures r.1 == (if found.Some? then found.value else newId)
    ensures r.1 in r.0.persons && r.0.persons[r.1].email == (if found.Some? then t.persons[r.1].email else Some(who.email))
    ensures r.0.personRoles == t.personRoles + {PersonRole(r.1, roleId, committeeId)}
    ensures r.0.udvalg == t.udvalg
  {
    var pid := if found.Some? then found.value else newId;
    var persons :=
      if found.None? then t.persons[newId := Person(who.name, Some(who.email), Some(who.username), union, true, None)]
      else if union.Some? && t.persons[pid].unionId != union then t.persons[pid := t.persons[pid].(unionId := union, inSystem := true)]
      else t.persons;
    (t.(persons := persons, personRoles := t.personRoles + {PersonRole(pid, roleId, committeeId)}), pid)
  }

  /**
   * What adding a member does to the person table: only the found person
   * changes, and only in union and found-flag; or exactly one new person,
   * marked as found, is inserted under a fresh key.
   */
  lemma AddMemberPersons(t: LegacyTables, who: Candidate, roleId: int, committeeId: int,
                         union: Option<int>, found: Option<int>, newId: int)
    requires FetchedRow(t.persons, who.email, found)
    requires newId !in t.persons
    ensures var (t2, pid) := AddMemberSpec(t, who, roleId, committeeId, union, found, newId);
      && (found.Some? ==>
            && pid == found.value
            && t2.persons.Keys == t.persons.Keys
            && (forall p | p in t.persons && p != pid :: t2.persons[p] == t.persons[p])
            && (if union.Some? && t.persons[pid].unionId != union
                then t2.persons[pid] == t.persons[pid].(unionId := union, inSystem := true)
                else t2.persons[pid] == t.persons[pid]))
      && (found.None? ==>
            && pid == newId
            && t2.persons.Keys == t.persons.Keys + {newId}
            && (forall p | p in t.persons :: t2.persons[p] == t.persons[p])
            && t2.persons[newId] == Person(who.name, Some(who.email), Some(who.username), union, true, None))
  {
  }

  /**
   * Adding the same member twice is the same as adding them once: the
   * second time the person is found, already has the union, and the role
   * insert hits the existing row.
   */
  lemma AddMemberIdempotent(t: LegacyTables, who: Candidate, roleId: int, committeeId: int,
                            union: Option<int>, found: Option<int>, newId: int, laterId: int)
    requires FetchedRow(t.persons, who.email, found)
    requires newId !in t.persons
    ensures var (t1, pid) := AddMemberSpec(t, who, roleId, committeeId, union, found, newId);
      FetchedRow(t1.persons, who.email, Some(pid))
      && AddMemberSpec(t1, who, roleId, committeeId, union, Some(pid), laterId) == (t1, pid)
  {
    var (t1, pid) := AddMemberSpec(t, who, roleId, committeeId, union, found, newId);
    AddMemberPersons(t, who, roleId, committeeId, union, found, newId);
    assert t1.personRoles + {PersonRole(pid, roleId, committeeId)} == t1.personRoles;
  }

  /** Adding a member never marks anyone as not found. */
  lemma AddMemberKeepsFound(t: LegacyTables, who: Candidate, roleId: int, committeeId: int,
                            union: Option<int>, found: Option<int>, newId: int)
    requires FetchedRow(t.persons, who.email, found)
    requires newId !in t.persons
    ensures var t2 := AddMemberSpec(t, who, roleId, committeeId, union, found, newId).0;
      forall p | p in t.persons && t.persons[p].inSystem :: p in t2.persons && t2.persons[p].inSystem
  {
    AddMemberPersons(t, who, roleId, committeeId, union, found, newId);
  }

  // ---------------------------------------------------------------------
  // Removing a member

  /**
   * Removing a member from a committee: every role the person with that
   * address holds in the committee goes, whatever the role; then every
   * person with that address who holds no role anywhere goes. The subquery
   * `(SELECT id FROM person WHERE email = :email)` fails when several
   * persons share the address, and then nothing is committed; with no such
   * person it is NULL and no role matches.
   */
  function RemoveMemberSpec(t: LegacyTables, committeeId: int, email: string): (r: Result<LegacyTables, SqlError>)
    ensures r.Failure? <==> |WithEmail(t.persons, email)| > 1
    // only deletions: committees stay, and no role or person is added
    ensures r.Success? ==>
      r.value.udvalg == t.udvalg && r.value.personRoles <= t.personRoles && r.value.persons.Keys <= t.persons.Keys
  {
    var ids := WithEmail(t.persons, email);
    if |ids| > 1 then Failure(SubqueryReturnedSeveralRows)
    else
      var prs := set r | r in t.personRoles && !(r.committeeId == committeeId && r.personId in ids);
      var persons := map p | p in t.persons && !(p in ids && p !in Holders(prs)) :: t.persons[p];
      Success(t.(persons := persons, personRoles := prs))
  }

  lemma RemoveMemberEffect(t: LegacyTables, committeeId: int, email: string)
    ensures var r := RemoveMemberSpec(t, committeeId, email);
      var ids := WithEmail(t.persons, email);
      && (r.Success? <==> |ids| <= 1)
      && (r.Success? ==>
            var t2 := r.value;
            // no role of that person is left in the committee, any other role is kept
            && (forall pr | pr in t2.personRoles :: !(pr.committeeId == committeeId && pr.personId in ids))
            && (forall pr | pr in t.personRoles :: pr in t2.personRoles <==> !(pr.committeeId == committeeId && pr.personId in ids))
            // the person stays exactly when they still hold a role somewhere
            && (forall p | p in ids :: p in t2.persons <==> exists pr | pr in t2.personRoles :: pr.personId == p)
            // nobody else is touched
            && (forall p | p in t.persons && p !in ids :: p in t2.persons && t2.persons[p] == t.persons[p])
            && (forall p | p in t2.persons :: p in t.persons && t2.persons[p] == t.persons[p])
            && t2.udvalg == t.udvalg)
  {
    var r := RemoveMemberSpec(t, committeeId, email);
    if r.Success? {
      var t2 := r.value;
      forall p | p in WithEmail(t.persons, email)
        ensures p in t2.persons <==> exists pr | pr in t2.personRoles :: pr.personId == p
      {
        if p !in t2.persons {
          assert p !in Holders(t2.personRoles);
        } else {
          assert p in Holders(t2.personRoles);
        }
      }
    }
  }

  /** Removing a member nobody has the address of changes nothing. */
  lemma RemoveUnknownMember(t: LegacyTables, committeeId: int, email: string)
    requires WithEmail(t.persons, email) == {}
    ensures RemoveMemberSpec(t, committeeId, email) == Success(t)
  {
    var t2 := RemoveMemberSpec(t, committeeId, email).value;
    assert t2.personRoles == t.personRoles;
    assert t2.persons == t.persons;
  }

  // ---------------------------------------------------------------------
  // Deleting a committee

  /**
   * Deleting a committee: its role rows go, its children become top-level,
   * its row goes, and then every person holding no role at all goes. The
   * committee is not looked up first, so the statements run (and the
   * persons without roles are deleted) even when it does not exist.
   */
  function DeleteCommitteeSpec(t: LegacyTables, id: int): (r: LegacyTables)
    ensures r.udvalg.Keys == t.udvalg.Keys - {id}
  {
    var prs := set r | r in t.personRoles && r.committeeId != id;
    var udvalg := map c | c in t.udvalg && c != id ::
      if t.udvalg[c].parent == Some(id) then t.udvalg[c].(parent := None) else t.udvalg[c];
    var persons := map p | p in t.persons && p in Holders(prs) :: t.persons[p];
    LegacyTables(udvalg, persons, prs)
  }

  lemma DeleteCommitteeEffect(t: LegacyTables, id: int)
    ensures var t2 := DeleteCommitteeSpec(t, id);
      && id !in t2.udvalg
      && (forall pr | pr in t.personRoles :: pr in t2.personRoles <==> pr.committeeId != id)
      && t2.personRoles <= t.personRoles
      && (forall c | c in t2.udvalg :: t2.udvalg[c].parent != Some(id))
      && (forall c | c in t2.udvalg && t.udvalg[c].parent != Some(id) :: t2.udvalg[c] == t.udvalg[c])
      && (forall p | p in t.persons :: p in t2.persons <==> exists pr | pr in t2.personRoles :: pr.personId == p)
      && (forall p | p in t2.persons :: p in t.persons && t2.persons[p] == t.persons[p])
  {
    var t2 := DeleteCommitteeSpec(t, id);
    forall p | p in t.persons
      ensures p in t2.persons <==> exists pr | pr in t2.personRoles :: pr.personId == p
    {
      if p in t2.persons {
        assert p in Holders(t2.personRoles);
      } else {
        assert p !in Holders(t2.personRoles);
      }
    }
  }

  /** Deleting a committee that does not exist still deletes every person without a role. */
  lemma DeleteMissingCommittee(t: LegacyTables, id: int)
    requires id !in t.udvalg
    requires forall c | c in t.udvalg :: t.udvalg[c].parent != Some(id)
    requires forall pr | pr in t.personRoles :: pr.committeeId != id
    ensures DeleteCommitteeSpec(t, id) ==
      t.(persons := map p | p in t.persons && p in Holders(t.personRoles) :: t.persons[p])
  {
    var t2 := DeleteCommitteeSpec(t, id);
    assert t2.personRoles == t.personRoles;
    assert t2.udvalg == t.udvalg;
  }

  /** Deleting a committee keeps the committee tree acyclic. */
  lemma DeleteCommitteeKeepsAcyclic(t: LegacyTables, id: int)
    requires Acyclic(Parents(t.udvalg))
    ensures Acyclic(Parents(DeleteCommitteeSpec(t, id).udvalg))
  {
    assert Parents(DeleteCommitteeSpec(t, id).udvalg) == Detach(Parents(t.udvalg), id);
    DetachPreservesAcyclic(Parents(t.udvalg), id);
  }

  // ---------------------------------------------------------------------
  // Creating, renaming and retyping a committee

  /** No two committee names are equal when case is ignored. */
  predicate NamesDistinct(udvalg: map<int, Udvalg>) {
    forall a, b | a in udvalg && b in udvalg && a != b :: Lower(udvalg[a].name) != Lower(udvalg[b].name)
  }

  /**
   * The create form: the stripped name must not be empty, and no committee
   * may have it when compared in lower case.
   */
  function CreateDecision(udvalg: map<int, Udvalg>, input: string): (r: Result<string, Rejection>)
    ensures r.Success? ==> r.value == Strip(input) && r.value != []
    ensures r.Success? ==> forall c | c in udvalg :: Lower(udvalg[c].name) != Lower(r.value)
    ensures r.Failure? ==> r.error == EmptyName || r.error == NameTaken
  {
    var name := Strip(input);
    if name == [] then Failure(EmptyName)
    else if exists c | c in udvalg :: Lower(udvalg[c].name) == Lower(name) then Failure(NameTaken)
    else Success(name)
  }

  /** Creating committees through the form keeps names distinct ignoring case. */
  lemma CreateKeepsNamesDistinct(udvalg: map<int, Udvalg>, input: string, parent: Option<int>, newId: int)
    requires NamesDistinct(udvalg)
    requires newId !in udvalg
    requires CreateDecision(udvalg, input).Success?
    ensures NamesDistinct(udvalg[newId := Udvalg(CreateDecision(udvalg, input).value, parent, None)])
  {
  }

  /** The rename form: the stripped name must be non-empty and differ from the current one. */
  function RenameDecision(current: string, input: string): (r: Result<string, Rejection>)
    ensures r.Success? <==> Strip(input) != [] && Strip(input) != current
    ensures r.Success? ==> r.value == Strip(input)
  {
    var name := Strip(input);
    if name == [] then Failure(EmptyName)
    else if name == current then Failure(NameUnchanged)
    else Success(name)
  }

  /** Submitting the same rename twice: the second is refused as unchanged. */
  lemma RenameTwice(current: string, input: string)
    requires RenameDecision(current, input).Success?
    ensures RenameDecision(RenameDecision(current, input).value, input) == Failure(NameUnchanged)
  {
  }

  /** The types the type form offers. */
  const TypeOptions: seq<string> := ["Udvalg", "Arbejdsmiljøgruppe"]

  /**
   * The type form: `type_options.index(current)` fails for a type that is
   * not offered (a NULL type included), and choosing the current type again
   * changes nothing.
   */
  function TypeChangeDecision(current: Option<string>, chosen: string): (r: Result<string, Rejection>)
    requires chosen in TypeOptions
    ensures r.Success? <==> current.Some? && current.value in TypeOptions && chosen != current.value
    ensures r.Success? ==> r.value == chosen
  {
    if current.None? || current.value !in TypeOptions then Failure(TypeNotOffered)
    else if chosen == current.value then Failure(TypeUnchanged)
    else Success(chosen)
  }

  // ---------------------------------------------------------------------
  // Moving a committee

  /**
   * The parents the move form offers: every committee but the one being
   * moved; nothing for committee 1, the top committee.
   */
  function MoveOptions(udvalg: map<int, Udvalg>, c: int): (r: set<int>)
    ensures c !in r && r <= udvalg.Keys
  {
    if c == 1 then {} else udvalg.Keys - {c}
  }

  /** A choice the move form can submit: an offered committee, or None when nothing is offered. */
  predicate MoveChoice(udvalg: map<int, Udvalg>, c: int, choice: Option<int>) {
    if choice.Some? then choice.value in MoveOptions(udvalg, c) else MoveOptions(udvalg, c) == {}
  }

  /** The committee table after committee `c` got parent `np`. */
  function Moved(udvalg: map<int, Udvalg>, c: int, np: int): (r: map<int, Udvalg>)
    requires c in udvalg
    ensures Parents(r) == Parents(udvalg)[c := Some(np)]
  {
    var r := udvalg[c := udvalg[c].(parent := Some(np))];
    assert Parents(r) == Parents(udvalg)[c := Some(np)];
    r
  }

  /**
   * The move form as written: refused when the committee has no parent now
   * or no new parent is chosen, accepted otherwise, whatever the new parent
   * is.
   */
  function MoveAsWritten(udvalg: map<int, Udvalg>, c: int, choice: Option<int>): (r: Result<int, Rejection>)
    requires c in udvalg
    ensures r.Success? ==> choice == Some(r.value)
    ensures r.Success? <==> udvalg[c].parent.Some? && choice.Some?
  {
    if udvalg[c].parent.None? || choice.None? then Failure(NoNewParent)
    else Success(choice.value)
  }

  /**
   * The move form as written accepts moving a committee under its own
   * child: from a tree HOVEDUDVALG (1) > A (2) > B (3), moving A under B
   * makes A and B each other's parent, and no ancestor walk from either
   * ends any more.
   */
  lemma MoveAsWrittenCreatesCycle()
    ensures var udvalg := map[1 := Udvalg("HOVEDUDVALG", None, None),
                              2 := Udvalg("A", Some(1), None),
                              3 := Udvalg("B", Some(2), None)];
      && Acyclic(Parents(udvalg))
      && MoveChoice(udvalg, 2, Some(3))
      && MoveAsWritten(udvalg, 2, Some(3)) == Success(3)
      && !Acyclic(Parents(Moved(udvalg, 2, 3)))
  {
    var udvalg := map[1 := Udvalg("HOVEDUDVALG", None, None),
                      2 := Udvalg("A", Some(1), None),
                      3 := Udvalg("B", Some(2), None)];
    var pm := Parents(udvalg);
    assert IsAncestorPath(pm, 1, [1]);
    assert IsAncestorPath(pm, 2, [2, 1]);
    assert IsAncestorPath(pm, 3, [3, 2, 1]);
    forall x | x in pm
      ensures Walk(pm, x, |pm| + 1).Some?
    {
      if x == 1 {
        AncestorPathTerminates(pm, 1, [1]);
      } else if x == 2 {
        AncestorPathTerminates(pm, 2, [2, 1]);
      } else {
        AncestorPathTerminates(pm, 3, [3, 2, 1]);
      }
    }
    var pm' := Parents(Moved(udvalg, 2, 3));
    TwoCycleNeverEnds(pm', 2, 3, |pm'| + 1);
  }

  /**
   * The move form with the missing check: a new parent whose ancestor chain
   * contains the committee (the committee itself or one of its
   * descendants) is refused.
   */
  function MoveChecked(udvalg: map<int, Udvalg>, c: int, choice: Option<int>): (r: Result<int, Rejection>)
    requires c in udvalg
    requires Acyclic(Parents(udvalg))
    ensures r.Success? ==> MoveAsWritten(udvalg, c, choice) == r
    ensures r.Failure? && MoveAsWritten(udvalg, c, choice).Success? ==> r.error == WouldCreateCycle
  {
    match MoveAsWritten(udvalg, c, choice)
    case Failure(e) => Failure(e)
    case Success(np) => if c in Chain(Parents(udvalg), np) then Failure(WouldCreateCycle) else Success(np)
  }

  /** A move accepted by the checked form keeps the committee tree acyclic. */
  lemma MoveCheckedKeepsAcyclic(udvalg: map<int, Udvalg>, c: int, choice: Option<int>)
    requires c in udvalg
    requires Acyclic(Parents(udvalg))
    requires MoveChecked(udvalg, c, choice).Success?
    ensures Acyclic(Parents(Moved(udvalg, c, MoveChecked(udvalg, c, choice).value)))
  {
    var np := MoveChecked(udvalg, c, choice).value;
    ReparentPreservesAcyclic(Parents(udvalg), c, Some(np));
  }

  /**
   * The check refuses no more than it must: a move the form as written
   * accepts is refused exactly when it would create a cycle.
   */
  lemma MoveCheckedExact(udvalg: map<int, Udvalg>, c: int, choice: Option<int>)
    requires c in udvalg
    requires Acyclic(Parents(udvalg))
    requires MoveAsWritten(udvalg, c, choice).Success?
    ensures var np := MoveAsWritten(udvalg, c, choice).value;
      MoveChecked(udvalg, c, choice).Success? <==> Acyclic(Parents(Moved(udvalg, c, np)))
  {
    var np := MoveAsWritten(udvalg, c, choice).value;
    if MoveChecked(udvalg, c, choice).Success? {
      MoveCheckedKeepsAcyclic(udvalg, c, choice);
    } else {
      ReparentIntoChainCycles(Parents(udvalg), c, np);
    }
  }

  // ---------------------------------------------------------------------
  // Searching committees

  /** `[row for row in rows if query.lower() in row['udvalg'].lower()]` */
  function SearchRows(query: string, rows: seq<Row>): (r: seq<Row>)
    ensures |r| <= |rows|
    ensures forall row :: row in r <==> row in rows && IsSubstring(Lower(query), Lower(row.name))
  {
    if rows == [] then []
    else
      var rest := SearchRows(query, rows[1..]);
      assert forall row :: row in rows <==> row == rows[0] || row in rows[1..];
      if IsSubstring(Lower(query), Lower(rows[0].name)) then [rows[0]] + rest else rest
  }

  // ---------------------------------------------------------------------
  // The flows as statements on the tables

  class LegacyDb {
    var udvalg: map<int, Udvalg>
    var persons: map<int, Person>
    var personRoles: set<PersonRole>
    /** The next key the id sequences hand out. */
    var nextId: int

    function Db(): LegacyTables
      reads this
    {
      LegacyTables(udvalg, persons, personRoles)
    }

    predicate Valid()
      reads this
    {
      KeysBelow(Db(), nextId)
    }

    constructor(t: LegacyTables, next: int)
      requires KeysBelow(t, next)
      ensures Db() == t && nextId == next && Valid()
    {
      udvalg, persons, personRoles, nextId := t.udvalg, t.persons, t.personRoles, next;
    }

    method AddMember(who: Candidate, roleId: int, committeeId: int, union: Option<int>, found: Option<int>)
      returns (personId: int)
      requires Valid()
      requires FetchedRow(persons, who.email, found)
      modifies this
      ensures Valid()
      ensures (Db(), personId) == AddMemberSpec(old(Db()), who, roleId, committeeId, union, found, old(nextId))
    {
      if found.Some? {
        personId := found.value;
        var p := persons[personId];
        if union.Some? && p.unionId != union {
          persons := persons[personId := p.(unionId := union, inSystem := true)];
        }
      } else {
        personId := nextId;
        persons := persons[personId := Person(who.name, Some(who.email), Some(who.username), union, true, None)];
        nextId := nextId + 1;
      }
      personRoles := personRoles + {PersonRole(personId, roleId, committeeId)};
    }

    method RemoveMember(committeeId: int, email: string) returns (ok: bool)
      requires Valid()
      modifies this
      ensures Valid() && nextId == old(nextId)
      ensures ok == RemoveMemberSpec(old(Db()), committeeId, email).Success?
      ensures Db() == if ok then RemoveMemberSpec(old(Db()), committeeId, email).value else old(Db())
    {
      var ids := WithEmail(persons, email);
      if |ids| > 1 {
        return false;
      }
      personRoles := set r | r in personRoles && !(r.committeeId == committeeId && r.personId in ids);
      persons := map p | p in persons && !(p in ids && p !in Holders(personRoles)) :: persons[p];
      ok := true;
    }

    method DeleteCommittee(id: int)
      requires Valid()
      modifies this
      ensures Valid() && nextId == old(nextId)
      ensures Db() == DeleteCommitteeSpec(old(Db()), id)
    {
      personRoles := set r | r in personRoles && r.committeeId != id;
      udvalg := map c | c in udvalg && c != id ::
        if udvalg[c].parent == Some(id) then udvalg[c].(parent := None) else udvalg[c];
      persons := map p | p in persons && p in Holders(personRoles) :: persons[p];
    }

    method CreateCommittee(input: string, parent: Option<int>) returns (r: Result<int, Rejection>)
      requires Valid()
      modifies this
      ensures Valid()
      ensures persons == old(persons) && personRoles == old(personRoles)
      ensures var d := CreateDecision(old(udvalg), input);
        && r.Success? == d.Success?
        && (d.Failure? ==> r == Failure(d.error) && udvalg == old(udvalg) && nextId == old(nextId))
        && (d.Success? ==> r == Success(old(nextId)) && udvalg == old(udvalg)[old(nextId) := Udvalg(d.value, parent, None)])
    {
      var d := CreateDecision(udvalg, input);
      if d.Failure? {
        return Failure(d.error);
      }
      udvalg := udvalg[nextId := Udvalg(d.value, parent, None)];
      r := Success(nextId);
      nextId := nextId + 1;
    }

    method RenameCommittee(c: int, input: string) returns (r: Result<string, Rejection>)
      requires c in udvalg
      modifies this
      ensures r == RenameDecision(old(udvalg[c].name), input)
      ensures udvalg == if r.Success? then old(udvalg)[c := old(udvalg[c]).(name := r.value)] else old(udvalg)
      ensures persons == old(persons) && personRoles == old(personRoles) && nextId == old(nextId)
    {
      r := RenameDecision(udvalg[c].name, input);
      if r.Success? {
        udvalg := udvalg[c := udvalg[c].(name := r.value)];
      }
    }

    method ChangeType(c: int, chosen: string) returns (r: Result<string, Rejection>)
      requires c in udvalg
      requires chosen in TypeOptions
      modifies this
      ensures r == TypeChangeDecision(old(udvalg[c].kind), chosen)
      ensures udvalg == if r.Success? then old(udvalg)[c := old(udvalg[c]).(kind := Some(chosen))] else old(udvalg)
      ensures persons == old(persons) && personRoles == old(personRoles) && nextId == old(nextId)
    {
      r := TypeChangeDecision(udvalg[c].kind, chosen);
      if r.Success? {
        udvalg := udvalg[c := udvalg[c].(kind := Some(chosen))];
      }
    }

    /**
     * The move as the front page performs it: every move the form accepts
     * is written, a move under the committee's own descendant included
     * (see `MoveAsWrittenCreatesCycle`).
     */
    method MoveCommittee(c: int, choice: Option<int>) returns (r: Result<int, Rejection>)
      requires c in udvalg
      modifies this
      ensures r == MoveAsWritten(old(udvalg), c, choice)
      ensures udvalg == if r.Success? then Moved(old(udvalg), c, r.value) else old(udvalg)
      ensures persons == old(persons) && personRoles == old(personRoles) && nextId == old(nextId)
    {
      r := MoveAsWritten(udvalg, c, choice);
      if r.Success? {
        udvalg := Moved(udvalg, c, r.value);
      }
    }

    /** The move with the check that keeps the committee tree acyclic. */
    method MoveCommitteeChecked(c: int, choice: Option<int>) returns (r: Result<int, Rejection>)
      requires c in udvalg
      requires MoveChoice(udvalg, c, choice)
      requires Acyclic(Parents(udvalg))
      modifies this
      ensures r == MoveChecked(old(udvalg), c, choice)
      ensures udvalg == if r.Success? then Moved(old(udvalg), c, r.value) else old(udvalg)
      ensures Acyclic(Parents(udvalg))
      ensures persons == old(persons) && personRoles == old(personRoles) && nextId == old(nextId)
    {
      r := MoveChecked(udvalg, c, choice);
      if r.Success? {
        MoveCheckedKeepsAcyclic(udvalg, c, choice);
        udvalg := Moved(udvalg, c, r.value);
      }
    }
  }
}
