/**
 * The data layer's write operations on the committee database.
 *
 * `MeddbData` keeps the five tables as maps and the membership table as a
 * set of triples. Each mutating operation either commits as a whole or, when
 * the database refuses it (a missing row: "... not found."; a broken foreign
 * key or unique constraint at commit: an integrity error), leaves every table
 * as it was. The new state of the central operations is given by a function
 * of the old tables (`Upsert`, `UpdateCommitteeSpec`, `DeleteMemberSpec`,
 * `DeleteCommitteeSpec`); the lemmas below state what those functions promise.
 */
module Store {
  import opened Wrappers
  import opened Models
  import opened Hierarchy

  /** Why an operation was refused: the row is missing, or a constraint failed at commit. */
  datatype DbError = NotFound | IntegrityError

  /** The `parent_id` argument of `update_committee`: the `False` sentinel, or a new value. */
  datatype ParentArg = KeepParent | SetParent(parent: Option<int>)

  /** Every key of every table is below `next`, so `next` is a fresh key. */
  predicate KeysBelow(t: Tables, next: int) {
    (forall k | k in t.types :: k < next)
    && (forall k | k in t.committees :: k < next)
    && (forall k | k in t.unions :: k < next)
    && (forall k | k in t.persons :: k < next)
    && (forall k | k in t.roles :: k < next)
  }

  /** Whether some person has this email. */
  predicate HasEmail(persons: map<int, Person>, email: string) {
    exists p | p in persons :: persons[p].email == email
  }

  // ---------------------------------------------------------------------
  // add_or_update_person

  /** The record of an existing person after `add_or_update_person`. */
  function UpdatedPerson(current: Person, name: string, found: bool, organization: Option<string>,
                         username: Option<string>, unionId: Option<int>): Person
  {
    current.(name := name, foundInSystem := found,
             organization := if organization.Some? then organization else current.organization,
             username := if username.Some? then username else current.username,
             unionId := if unionId.Some? then unionId else current.unionId)
  }

  /**
   * `add_or_update_person`: the person with this email is updated, or else a
   * new person with key `newId` is inserted; a `union_id` that names no union
   * breaks the foreign key and nothing is stored. Yields the tables and the key.
   */
  ghost function Upsert(t: Tables, name: string, email: string, found: bool, organization: Option<string>,
                        username: Option<string>, unionId: Option<int>, newId: int): (r: Result<(Tables, int), DbError>)
    ensures r.Failure? <==> unionId.Some? && unionId.value !in t.unions
    // the returned key holds a person with this address, name and found flag; only persons change
    ensures r.Success? ==>
      var (t2, p) := r.value;
      && p in t2.persons && t2.persons[p].email == email && t2.persons[p].name == name
      && t2.persons[p].foundInSystem == found
      && t2 == t.(persons := t2.persons)
      && t2.persons.Keys == t.persons.Keys + {p}
    // a new key is used only when no person has the address
    ensures r.Success? && !HasEmail(t.persons, email) ==> r.value.1 == newId
    ensures r.Success? && HasEmail(t.persons, email) ==> r.value.1 in t.persons
  {
    if unionId.Some? && unionId.value !in t.unions then Failure(IntegrityError)
    else if HasEmail(t.persons, email) then
      var p :| p in t.persons && t.persons[p].email == email;
      Success((t.(persons := t.persons[p := UpdatedPerson(t.persons[p], name, found, organization, username, unionId)]), p))
    else
      Success((t.(persons := t.persons[newId := Person(username, name, email, organization, found, unionId)]), newId))
  }

  /** Upserting an existing email rewrites exactly that person's record. */
  lemma UpsertExistingShape(t: Tables, name: string, email: string, found: bool, organization: Option<string>,
                            username: Option<string>, unionId: Option<int>, newId: int, p: int)
    requires EmailsUnique(t.persons)
    requires p in t.persons && t.persons[p].email == email
    requires unionId.None? || unionId.value in t.unions
    ensures Upsert(t, name, email, found, organization, username, unionId, newId)
      == Success((t.(persons := t.persons[p := UpdatedPerson(t.persons[p], name, found, organization, username, unionId)]), p))
  {
    var q :| q in t.persons && t.persons[q].email == email;
    assert q == p;
  }

  /**
   * Upserting an existing email overwrites `name` and `found_in_system`,
   * keeps `organization`, `username` and `union_id` where the argument is
   * None, and touches no other person and no other table.
   */
  lemma UpsertExisting(t: Tables, name: string, email: string, found: bool, organization: Option<string>,
                       username: Option<string>, unionId: Option<int>, newId: int, p: int)
    requires EmailsUnique(t.persons)
    requires p in t.persons && t.persons[p].email == email
    requires unionId.None? || unionId.value in t.unions
    ensures var r := Upsert(t, name, email, found, organization, username, unionId, newId);
      r.Success? && r.value.1 == p
      && r.value.0 == t.(persons := r.value.0.persons)
      && r.value.0.persons.Keys == t.persons.Keys
      && (forall q | q in t.persons && q != p :: r.value.0.persons[q] == t.persons[q])
      && var n := r.value.0.persons[p];
         n.name == name && n.foundInSystem == found && n.email == email
         && (organization.None? ==> n.organization == t.persons[p].organization)
         && (username.None? ==> n.username == t.persons[p].username)
         && (unionId.None? ==> n.unionId == t.persons[p].unionId)
         && (organization.Some? ==> n.organization == organization)
         && (username.Some? ==> n.username == username)
         && (unionId.Some? ==> n.unionId == unionId)
  {
    UpsertExistingShape(t, name, email, found, organization, username, unionId, newId, p);
  }

  /** Upserting a new email inserts one person with exactly the given fields. */
  lemma UpsertNew(t: Tables, name: string, email: string, found: bool, organization: Option<string>,
                  username: Option<string>, unionId: Option<int>, newId: int)
    requires !HasEmail(t.persons, email)
    requires unionId.None? || unionId.value in t.unions
    requires newId !in t.persons
    ensures var r := Upsert(t, name, email, found, organization, username, unionId, newId);
      r.Success? && r.value.1 == newId
      && r.value.0 == t.(persons := t.persons[newId := Person(username, name, email, organization, found, unionId)])
      && r.value.0.persons.Keys == t.persons.Keys + {newId}
  {
  }

  /** Writing one person record keeps every constraint when its union exists and its email is free. */
  lemma PersonWriteConsistent(t: Tables, id: int, person: Person)
    requires Consistent(t)
    requires person.unionId.None? || person.unionId.value in t.unions
    requires forall q | q in t.persons && q != id :: t.persons[q].email != person.email
    ensures Consistent(t.(persons := t.persons[id := person]))
  {
    var t2 := t.(persons := t.persons[id := person]);
    assert ReferencesExist(t2);
    assert EmailsUnique(t2.persons);
  }

  /** Upsert keeps every constraint: in particular it never creates a second person with an email. */
  lemma UpsertConsistent(t: Tables, name: string, email: string, found: bool, organization: Option<string>,
                         username: Option<string>, unionId: Option<int>, newId: int)
    requires Consistent(t)
    requires newId !in t.persons
    ensures var r := Upsert(t, name, email, found, organization, username, unionId, newId);
      r.Success? ==>
        (Consistent(r.value.0)
         && r.value.0.persons[r.value.1].email == email
         && (forall q | q in r.value.0.persons && r.value.0.persons[q].email == email :: q == r.value.1))
  {
    if unionId.None? || unionId.value in t.unions {
      var id, person := UpsertWrite(t, name, email, found, organization, username, unionId, newId);
      UpsertWritesOne(t, id, person);
    }
  }

  /** A successful upsert writes one record, carrying the email, under a key no other holder of that email has. */
  lemma UpsertWrite(t: Tables, name: string, email: string, found: bool, organization: Option<string>,
                    username: Option<string>, unionId: Option<int>, newId: int) returns (id: int, person: Person)
    requires Consistent(t)
    requires newId !in t.persons
    requires unionId.None? || unionId.value in t.unions
    ensures Upsert(t, name, email, found, organization, username, unionId, newId)
      == Success((t.(persons := t.persons[id := person]), id))
    ensures person.email == email
    ensures person.unionId.None? || person.unionId.value in t.unions
    ensures forall q | q in t.persons && q != id :: t.persons[q].email != email
  {
    if HasEmail(t.persons, email) {
      var p :| p in t.persons && t.persons[p].email == email;
      UpsertExistingShape(t, name, email, found, organization, username, unionId, newId, p);
      id, person := p, UpdatedPerson(t.persons[p], name, found, organization, username, unionId);
    } else {
      id, person := newId, Person(username, name, email, organization, found, unionId);
    }
  }

  /** Writing one person whose email no other person has keeps every constraint and leaves that email unique. */
  lemma UpsertWritesOne(t: Tables, id: int, person: Person)
    requires Consistent(t)
    requires person.unionId.None? || person.unionId.value in t.unions
    requires forall q | q in t.persons && q != id :: t.persons[q].email != person.email
    ensures var t2 := t.(persons := t.persons[id := person]);
      && Consistent(t2)
      && id in t2.persons && t2.persons[id].email == person.email
      && (forall q | q in t2.persons && t2.persons[q].email == person.email :: q == id)
  {
    PersonWriteConsistent(t, id, person);
  }

  /**
   * Upsert fails exactly on a missing union, and otherwise keeps every
   * constraint and keeps `next` (one more when a person is inserted) a
   * fresh key.
   */
  lemma UpsertKeepsValid(t: Tables, name: string, email: string, found: bool, organization: Option<string>,
                         username: Option<string>, unionId: Option<int>, next: int)
    requires Consistent(t) && KeysBelow(t, next)
    ensures var r := Upsert(t, name, email, found, organization, username, unionId, next);
      && (r.Failure? <==> unionId.Some? && unionId.value !in t.unions)
      && (r.Failure? ==> r.error == IntegrityError)
      && (r.Success? ==> Consistent(r.value.0))
      && (r.Success? ==> KeysBelow(r.value.0, if HasEmail(t.persons, email) then next else next + 1))
  {
    UpsertConsistent(t, name, email, found, organization, username, unionId, next);
    if unionId.None? || unionId.value in t.unions {
      UpsertKeys(t, name, email, found, organization, username, unionId, next);
    }
  }

  /** Updating the person who has the email keeps the tables valid. */
  lemma UpsertUpdateValid(t: Tables, name: string, email: string, found: bool, organization: Option<string>,
                          username: Option<string>, unionId: Option<int>, next: int, p: int)
    requires Consistent(t) && KeysBelow(t, next)
    requires p in t.persons && t.persons[p].email == email
    requires unionId.None? || unionId.value in t.unions
    ensures var t2 := t.(persons := t.persons[p := UpdatedPerson(t.persons[p], name, found, organization, username, unionId)]);
      Upsert(t, name, email, found, organization, username, unionId, next) == Success((t2, p))
      && Consistent(t2) && KeysBelow(t2, next)
  {
    UpsertExistingShape(t, name, email, found, organization, username, unionId, next, p);
    UpsertKeepsValid(t, name, email, found, organization, username, unionId, next);
  }

  /** Inserting a person under the next key keeps the tables valid with the counter moved on. */
  lemma UpsertInsertValid(t: Tables, name: string, email: string, found: bool, organization: Option<string>,
                          username: Option<string>, unionId: Option<int>, next: int)
    requires Consistent(t) && KeysBelow(t, next)
    requires !HasEmail(t.persons, email)
    requires unionId.None? || unionId.value in t.unions
    ensures var t2 := t.(persons := t.persons[next := Person(username, name, email, organization, found, unionId)]);
      Upsert(t, name, email, found, organization, username, unionId, next) == Success((t2, next))
      && Consistent(t2) && KeysBelow(t2, next + 1)
  {
    UpsertNew(t, name, email, found, organization, username, unionId, next);
    UpsertKeepsValid(t, name, email, found, organization, username, unionId, next);
  }

  /** A successful upsert adds at most the key `next`. */
  lemma UpsertKeys(t: Tables, name: string, email: string, found: bool, organization: Option<string>,
                   username: Option<string>, unionId: Option<int>, next: int)
    requires EmailsUnique(t.persons) && KeysBelow(t, next)
    requires unionId.None? || unionId.value in t.unions
    ensures var r := Upsert(t, name, email, found, organization, username, unionId, next);
      r.Success? && KeysBelow(r.value.0, if HasEmail(t.persons, email) then next else next + 1)
  {
    if HasEmail(t.persons, email) {
      var p :| p in t.persons && t.persons[p].email == email;
      UpsertExistingShape(t, name, email, found, organization, username, unionId, next, p);
    }
  }

  /** Repeating an upsert with the same arguments changes nothing more. */
  lemma UpsertIdempotent(t: Tables, name: string, email: string, found: bool, organization: Option<string>,
                         username: Option<string>, unionId: Option<int>, newId: int, newId2: int)
    requires Consistent(t)
    requires newId !in t.persons
    requires Upsert(t, name, email, found, organization, username, unionId, newId).Success?
    ensures var r := Upsert(t, name, email, found, organization, username, unionId, newId);
      Upsert(r.value.0, name, email, found, organization, username, unionId, newId2) == r
  {
    var r := Upsert(t, name, email, found, organization, username, unionId, newId);
    var t2 := r.value.0;
    var id := r.value.1;
    UpsertConsistent(t, name, email, found, organization, username, unionId, newId);
    UpsertStored(t, name, email, found, organization, username, unionId, newId);
    UpsertExistingShape(t2, name, email, found, organization, username, unionId, newId2, id);
    assert t2.persons[id := t2.persons[id]] == t2.persons;
  }

  /** The record an upsert stores is a fixed point of the update with the same arguments. */
  lemma UpsertStored(t: Tables, name: string, email: string, found: bool, organization: Option<string>,
                     username: Option<string>, unionId: Option<int>, newId: int)
    requires EmailsUnique(t.persons)
    requires Upsert(t, name, email, found, organization, username, unionId, newId).Success?
    ensures var r := Upsert(t, name, email, found, organization, username, unionId, newId);
      && r.value.1 in r.value.0.persons
      && r.value.0.unions == t.unions
      && UpdatedPerson(r.value.0.persons[r.value.1], name, found, organization, username, unionId)
         == r.value.0.persons[r.value.1]
  {
    if HasEmail(t.persons, email) {
      var p :| p in t.persons && t.persons[p].email == email;
      UpsertExistingShape(t, name, email, found, organization, username, unionId, newId, p);
    }
  }

  // ---------------------------------------------------------------------
  // update_committee

  /**
   * `update_committee`: a missing id is refused; `name` and `type_id` change
   * only when given, `parent_id` only when it is not the sentinel; a new type
   * or parent that does not exist breaks a foreign key.
   */
  function UpdateCommitteeSpec(t: Tables, id: int, name: Option<string>, typeId: Option<int>,
                               parent: ParentArg): (r: Result<Tables, DbError>)
    ensures r.Failure? <==>
      || id !in t.committees
      || (typeId.Some? && typeId.value !in t.types)
      || (parent.SetParent? && parent.parent.Some? && parent.parent.value !in t.committees)
    // only the one committee's record changes
    ensures r.Success? ==>
      && r.value == t.(committees := r.value.committees)
      && r.value.committees.Keys == t.committees.Keys
      && forall k | k in t.committees && k != id :: r.value.committees[k] == t.committees[k]
  {
    if id !in t.committees then Failure(NotFound)
    else if typeId.Some? && typeId.value !in t.types then Failure(IntegrityError)
    else if parent.SetParent? && parent.parent.Some? && parent.parent.value !in t.committees then Failure(IntegrityError)
    else
      var c := t.committees[id];
      var c' := c.(name := name.GetOr(c.name), typeId := typeId.GetOr(c.typeId),
                   parentId := if parent.SetParent? then parent.parent else c.parentId);
      Success(t.(committees := t.committees[id := c']))
  }

  /** What `update_committee` changes, and that it changes nothing else. */
  lemma UpdateCommitteeFields(t: Tables, id: int, name: Option<string>, typeId: Option<int>, parent: ParentArg)
    requires UpdateCommitteeSpec(t, id, name, typeId, parent).Success?
    ensures var t2 := UpdateCommitteeSpec(t, id, name, typeId, parent).value;
      id in t.committees
      && t2 == t.(committees := t2.committees)
      && t2.committees.Keys == t.committees.Keys
      && (forall c | c in t.committees && c != id :: t2.committees[c] == t.committees[c])
      && t2.committees[id].name == (if name.Some? then name.value else t.committees[id].name)
      && t2.committees[id].typeId == (if typeId.Some? then typeId.value else t.committees[id].typeId)
      && (parent == KeepParent ==> t2.committees[id].parentId == t.committees[id].parentId)
      && (parent == SetParent(None) ==> t2.committees[id].parentId.None?)
  {
  }

  /** Updating a committee adds no key, so a fresh key stays fresh. */
  lemma UpdateCommitteeKeys(t: Tables, id: int, name: Option<string>, typeId: Option<int>, parent: ParentArg, next: int)
    requires KeysBelow(t, next)
    ensures var r := UpdateCommitteeSpec(t, id, name, typeId, parent);
      r.Success? ==> KeysBelow(r.value, next)
  {
  }

  /** Updating a committee that is not there is refused and stores nothing. */
  lemma UpdateCommitteeMissing(t: Tables, id: int, name: Option<string>, typeId: Option<int>, parent: ParentArg)
    requires id !in t.committees
    ensures UpdateCommitteeSpec(t, id, name, typeId, parent) == Failure(NotFound)
  {
  }

  lemma UpdateCommitteeConsistent(t: Tables, id: int, name: Option<string>, typeId: Option<int>, parent: ParentArg)
    requires Consistent(t)
    ensures var r := UpdateCommitteeSpec(t, id, name, typeId, parent);
      r.Success? ==> Consistent(r.value)
  {
  }

  /**
   * `update_committee` checks no ancestry. The committee tree stays acyclic
   * when the new parent is neither the committee nor one of its descendants.
   */
  lemma UpdateCommitteeKeepsAcyclic(t: Tables, id: int, name: Option<string>, typeId: Option<int>, parent: ParentArg)
    requires Acyclic(ParentsOf(t.committees))
    requires UpdateCommitteeSpec(t, id, name, typeId, parent).Success?
    requires parent.SetParent? && parent.parent.Some? ==> id !in Chain(ParentsOf(t.committees), parent.parent.value)
    ensures Acyclic(ParentsOf(UpdateCommitteeSpec(t, id, name, typeId, parent).value.committees))
  {
    var t2 := UpdateCommitteeSpec(t, id, name, typeId, parent).value;
    var pm := ParentsOf(t.committees);
    if parent.SetParent? {
      assert ParentsOf(t2.committees) == pm[id := parent.parent];
      ReparentPreservesAcyclic(pm, id, parent.parent);
    } else {
      assert ParentsOf(t2.committees) == pm;
    }
  }

  /** A committee made its own parent can never finish an ancestor walk. */
  lemma UpdateCommitteeSelfParent(t: Tables, id: int)
    requires id in t.committees
    ensures var r := UpdateCommitteeSpec(t, id, None, None, SetParent(Some(id)));
      r.Success? && forall fuel: nat :: Walk(ParentsOf(r.value.committees), id, fuel).None?
  {
    var t2 := UpdateCommitteeSpec(t, id, None, None, SetParent(Some(id))).value;
    forall fuel: nat
      ensures Walk(ParentsOf(t2.committees), id, fuel).None?
    {
      SelfLoopNeverEnds(ParentsOf(t2.committees), id, fuel);
    }
  }

  // ---------------------------------------------------------------------
  // delete_committee_member

  /** Deleting a membership only removes keys, so a fresh key stays fresh. */
  lemma DeleteMemberKeys(t: Tables, committeeId: int, personId: int, roleId: int, next: int)
    requires KeysBelow(t, next)
    ensures var r := DeleteMemberSpec(t, committeeId, personId, roleId);
      r.Success? ==> KeysBelow(r.value, next)
  {
  }

  /**
   * `delete_committee_member`: refused when the exact triple is absent;
   * otherwise the triple goes, and so does the person if no membership of
   * theirs remains.
   */
  function DeleteMemberSpec(t: Tables, committeeId: int, personId: int, roleId: int): (r: Result<Tables, DbError>)
    ensures r.Failure? <==> Membership(personId, roleId, committeeId) !in t.memberships
    // exactly the triple goes; at most that person goes with it
    ensures r.Success? ==>
      && r.value.memberships == t.memberships - {Membership(personId, roleId, committeeId)}
      && t.persons.Keys - {personId} <= r.value.persons.Keys <= t.persons.Keys
  {
    var m := Membership(personId, roleId, committeeId);
    if m !in t.memberships then Failure(NotFound)
    else
      var ms := t.memberships - {m};
      var persons := if personId in MemberIds(ms) then t.persons else t.persons - {personId};
      Success(t.(memberships := ms, persons := persons))
  }

  lemma DeleteMemberEffect(t: Tables, committeeId: int, personId: int, roleId: int)
    ensures var r := DeleteMemberSpec(t, committeeId, personId, roleId);
      var m := Membership(personId, roleId, committeeId);
      (r.Failure? <==> m !in t.memberships)
      && (r.Success? ==>
            r.value.memberships == t.memberships - {m}
            && (personId in r.value.persons <==>
                  personId in t.persons && exists m2 | m2 in r.value.memberships :: m2.personId == personId)
            && (forall q | q != personId :: (q in r.value.persons <==> q in t.persons))
            && (forall q | q in r.value.persons :: r.value.persons[q] == t.persons[q])
            && r.value == t.(memberships := r.value.memberships, persons := r.value.persons))
  {
    var r := DeleteMemberSpec(t, committeeId, personId, roleId);
    if r.Success? {
      var ms := r.value.memberships;
      if exists m2 | m2 in ms :: m2.personId == personId {
        var m2 :| m2 in ms && m2.personId == personId;
        assert personId in MemberIds(ms);
      }
    }
  }

  lemma DeleteMemberConsistent(t: Tables, committeeId: int, personId: int, roleId: int)
    requires Consistent(t)
    ensures var r := DeleteMemberSpec(t, committeeId, personId, roleId);
      r.Success? ==> Consistent(r.value)
  {
    var r := DeleteMemberSpec(t, committeeId, personId, roleId);
    if r.Success? {
      var t2 := r.value;
      forall m2 | m2 in t2.memberships
        ensures m2.personId in t2.persons
      {
        assert m2.personId in MemberIds(t2.memberships);
      }
    }
  }

  // ---------------------------------------------------------------------
  // delete_committee

  /** The tables after `delete_union`: the union goes and its members keep no union. */
  ghost function DetachUnion(t: Tables, id: int): Tables {
    t.(unions := t.unions - {id},
       persons := map p | p in t.persons ::
         if t.persons[p].unionId == Some(id) then t.persons[p].(unionId := None) else t.persons[p])
  }

  lemma DetachUnionValid(t: Tables, id: int, next: int)
    requires Consistent(t) && KeysBelow(t, next)
    ensures Consistent(DetachUnion(t, id)) && KeysBelow(DetachUnion(t, id), next)
  {
  }

  /** Deleting a committee only removes keys, so a fresh key stays fresh. */
  lemma DeleteCommitteeKeys(t: Tables, id: int, next: int)
    requires KeysBelow(t, next)
    ensures var r := DeleteCommitteeSpec(t, id);
      r.Success? ==> KeysBelow(r.value, next)
  {
  }

  /**
   * `delete_committee`: refused on a missing id; otherwise its memberships
   * go, then every person left without any membership (including persons who
   * had none before), the children become top level, and the committee goes.
   */
  function DeleteCommitteeSpec(t: Tables, id: int): Result<Tables, DbError>
  {
    if id !in t.committees then Failure(NotFound)
    else
      var ms := set m | m in t.memberships && m.committeeId != id;
      var persons := map p | p in t.persons && p in MemberIds(ms) :: t.persons[p];
      var committees := map c | c in t.committees && c != id ::
        if t.committees[c].parentId == Some(id) then t.committees[c].(parentId := None) else t.committees[c];
      Success(t.(memberships := ms, persons := persons, committees := committees))
  }

  lemma DeleteCommitteeEffect(t: Tables, id: int)
    ensures var r := DeleteCommitteeSpec(t, id);
      (r.Failure? <==> id !in t.committees)
      && (r.Success? ==>
            var t2 := r.value;
            id !in t2.committees
            && t2.committees.Keys == t.committees.Keys - {id}
            && (forall m | m in t2.memberships :: m.committeeId != id)
            && (forall m | m in t.memberships && m.committeeId != id :: m in t2.memberships)
            && t2.memberships <= t.memberships
            && (forall c | c in t.committees && t.committees[c].parentId == Some(id) && c != id ::
                  t2.committees[c].parentId.None?)
            && (forall c | c in t2.committees && t.committees[c].parentId != Some(id) ::
                  t2.committees[c] == t.committees[c])
            && (forall p | p in t.persons :: (p in t2.persons <==> exists m | m in t2.memberships :: m.personId == p))
            && (forall p | p in t2.persons :: p in t.persons && t2.persons[p] == t.persons[p])
            && t2.types == t.types && t2.unions == t.unions && t2.roles == t.roles)
  {
    var r := DeleteCommitteeSpec(t, id);
    if r.Success? {
      var t2 := r.value;
      forall p | p in t.persons
        ensures p in t2.persons <==> exists m | m in t2.memberships :: m.personId == p
      {
        if exists m | m in t2.memberships :: m.personId == p {
          var m :| m in t2.memberships && m.personId == p;
          assert p in MemberIds(t2.memberships);
        }
      }
    }
  }

  lemma DeleteCommitteeConsistent(t: Tables, id: int)
    requires Consistent(t)
    ensures var r := DeleteCommitteeSpec(t, id);
      r.Success? ==> Consistent(r.value)
  {
    var r := DeleteCommitteeSpec(t, id);
    if r.Success? {
      var t2 := r.value;
      forall m | m in t2.memberships
        ensures m.personId in t2.persons && m.committeeId in t2.committees
      {
        assert m.personId in MemberIds(t2.memberships);
      }
      forall c | c in t2.committees && t2.committees[c].parentId.Some?
        ensures t2.committees[c].parentId.value in t2.committees
      {
      }
      assert EmailsUnique(t2.persons);
    }
  }

  /** Deleting a committee keeps the committee tree acyclic. */
  lemma DeleteCommitteeKeepsAcyclic(t: Tables, id: int)
    requires Acyclic(ParentsOf(t.committees))
    requires DeleteCommitteeSpec(t, id).Success?
    ensures Acyclic(ParentsOf(DeleteCommitteeSpec(t, id).value.committees))
  {
    var t2 := DeleteCommitteeSpec(t, id).value;
    assert ParentsOf(t2.committees) == Detach(ParentsOf(t.committees), id);
    DetachPreservesAcyclic(ParentsOf(t.committees), id);
  }

  // ---------------------------------------------------------------------
  // The data layer as an object over the tables.

  /** The names of the types in a type table. */
  function TypeNames(types: map<int, CommitteeType>): set<string> {
    set k | k in types :: types[k].name
  }

  /** Adding a type under a fresh key adds its name to the names. */
  lemma TypeNamesInsert(types: map<int, CommitteeType>, k: int, row: CommitteeType)
    requires k !in types
    ensures TypeNames(types[k := row]) == TypeNames(types) + {row.name}
  {
    var types2 := types[k := row];
    forall n | n in TypeNames(types)
      ensures n in TypeNames(types2)
    {
      var j :| j in types && types[j].name == n;
      assert types2[j].name == n;
    }
    assert types2[k].name == row.name;
  }

  /** Writing a type record keeps every constraint when no other type has its name. */
  lemma TypeWriteConsistent(t: Tables, id: int, ct: CommitteeType)
    requires Consistent(t)
    requires id !in t.types
    requires ct.name !in TypeNames(t.types)
    ensures Consistent(t.(types := t.types[id := ct]))
  {
    var t2 := t.(types := t.types[id := ct]);
    assert ReferencesExist(t2);
    assert TypeNamesUnique(t2.types);
  }

  /** The names `_seed_db` makes sure exist, all protected. */
  const SeedTypeNames: seq<string> := ["Udvalg", "Arbejdsmiljøgruppe", "Ukendt"]

  class MeddbData {
    var types: map<int, CommitteeType>
    var committees: map<int, Committee>
    var unions: map<int, Union>
    var persons: map<int, Person>
    var roles: map<int, Role>
    var memberships: set<Membership>
    /** The next key the database's sequences hand out. */
    var nextId: int

    function Db(): Tables
      reads this
    {
      Tables(types, committees, unions, persons, roles, memberships)
    }

    predicate Valid()
      reads this
    {
      Consistent(Db()) && KeysBelow(Db(), nextId)
    }

    /**
     * A new store: the tables are created empty and then seeded, so the
     * store holds exactly the protected seed types and nothing else.
     */
    constructor ()
      ensures Valid()
      ensures committees == map[] && unions == map[] && persons == map[] && roles == map[] && memberships == {}
      ensures forall k | k in types :: types[k].isProtected && types[k].name in SeedTypeNames
      ensures forall name | name in SeedTypeNames :: name in TypeNames(types)
    {
      types, committees, unions, persons, roles, memberships := map[], map[], map[], map[], map[], {};
      nextId := 1;
      new;
      SeedDb();
    }

    /**
     * `_seed_db`: each seed type name missing from the table is added as a
     * protected type; existing types are left exactly as they are.
     */
    method SeedDb()
      requires Valid()
      modifies this
      ensures Valid()
      ensures Db() == old(Db()).(types := types)
      ensures forall k | k in old(types) :: k in types && types[k] == old(types)[k]
      ensures forall k | k in types && k !in old(types) ::
                types[k].isProtected && types[k].name in SeedTypeNames && types[k].name !in TypeNames(old(types))
      ensures forall name | name in SeedTypeNames :: name in TypeNames(types)
    {
      var existing := TypeNames(types);
      ghost var types0 := types;
      var i := 0;
      while i < |SeedTypeNames|
        invariant 0 <= i <= |SeedTypeNames|
        invariant Valid()
        invariant Db() == old(Db()).(types := types)
        invariant forall k | k in types0 :: k in types && types[k] == types0[k]
        invariant forall k | k in types && k !in types0 ::
                    types[k].isProtected && types[k].name in SeedTypeNames[..i] && types[k].name !in existing
        invariant forall j | 0 <= j < i :: SeedTypeNames[j] in TypeNames(types)
      {
        var name := SeedTypeNames[i];
        if name !in existing {
          assert name !in SeedTypeNames[..i];
          assert name !in TypeNames(types);
          var k := InsertType(CommitteeType(name, true));
        }
        i := i + 1;
      }
    }

    /** Inserts a type row, whose name no type has, under the next free key. */
    method InsertType(row: CommitteeType) returns (k: int)
      requires Valid()
      requires row.name !in TypeNames(types)
      modifies this
      ensures Valid()
      ensures k == old(nextId) && k !in old(types)
      ensures Db() == old(Db()).(types := old(types)[k := row])
      ensures TypeNames(types) == TypeNames(old(types)) + {row.name}
    {
      TypeWriteConsistent(Db(), nextId, row);
      k := nextId;
      TypeNamesInsert(types, k, row);
      types := types[k := row];
      nextId := nextId + 1;
    }

    /** `create_role`: a new role, unless the name is taken. */
    method CreateRole(name: string) returns (r: Result<int, DbError>)
      requires Valid()
      modifies this
      ensures Valid()
      ensures r.Failure? <==> exists k | k in old(roles) :: old(roles)[k].name == name
      ensures r.Failure? ==> r.error == IntegrityError && Db() == old(Db())
      ensures r.Success? ==> r.value !in old(roles) && Db() == old(Db()).(roles := old(roles)[r.value := Role(name)])
    {
      if exists k | k in roles :: roles[k].name == name {
        return Failure(IntegrityError);
      }
      r := Success(nextId);
      roles := roles[nextId := Role(name)];
      nextId := nextId + 1;
    }

    /** `create_committee_type`: a new unprotected type, unless the name is taken. */
    method CreateCommitteeType(name: string) returns (r: Result<int, DbError>)
      requires Valid()
      modifies this
      ensures Valid()
      ensures r.Failure? <==> exists k | k in old(types) :: old(types)[k].name == name
      ensures r.Failure? ==> r.error == IntegrityError && Db() == old(Db())
      ensures r.Success? ==>
        (r.value !in old(types) && Db() == old(Db()).(types := old(types)[r.value := DefaultCommitteeType(name)]))
    {
      if exists k | k in types :: types[k].name == name {
        return Failure(IntegrityError);
      }
      r := Success(nextId);
      types := types[nextId := DefaultCommitteeType(name)];
      nextId := nextId + 1;
    }

    /** `create_union`: a new union, unless the name is taken. */
    method CreateUnion(name: string, description: Option<string>) returns (r: Result<int, DbError>)
      requires Valid()
      modifies this
      ensures Valid()
      ensures r.Failure? <==> exists k | k in old(unions) :: old(unions)[k].name == name
      ensures r.Failure? ==> r.error == IntegrityError && Db() == old(Db())
      ensures r.Success? ==>
        (r.value !in old(unions) && Db() == old(Db()).(unions := old(unions)[r.value := Union(name, description)]))
    {
      if exists k | k in unions :: unions[k].name == name {
        return Failure(IntegrityError);
      }
      r := Success(nextId);
      unions := unions[nextId := Union(name, description)];
      nextId := nextId + 1;
    }

    /** `create_committee`: a new committee, unless its type or parent does not exist. */
    method CreateCommittee(name: string, typeId: int, parentId: Option<int>) returns (r: Result<int, DbError>)
      requires Valid()
      modifies this
      ensures Valid()
      ensures r.Failure? <==> typeId !in old(types) || (parentId.Some? && parentId.value !in old(committees))
      ensures r.Failure? ==> r.error == IntegrityError && Db() == old(Db())
      ensures r.Success? ==>
        (r.value !in old(committees)
         && Db() == old(Db()).(committees := old(committees)[r.value := Committee(name, typeId, parentId)]))
    {
      if typeId !in types || (parentId.Some? && parentId.value !in committees) {
        return Failure(IntegrityError);
      }
      r := Success(nextId);
      committees := committees[nextId := Committee(name, typeId, parentId)];
      nextId := nextId + 1;
    }

    /**
     * `create_committee_member`: adds the triple; a triple that already exists
     * (primary key) or a missing person, role or committee is refused.
     */
    method CreateCommitteeMember(committeeId: int, personId: int, roleId: int) returns (r: Result<Membership, DbError>)
      requires Valid()
      modifies this
      ensures Valid()
      ensures r.Failure? <==>
        (Membership(personId, roleId, committeeId) in old(memberships)
         || personId !in old(persons) || roleId !in old(roles) || committeeId !in old(committees))
      ensures r.Failure? ==> r.error == IntegrityError && Db() == old(Db())
      ensures r.Success? ==>
        (r.value == Membership(personId, roleId, committeeId)
         && Db() == old(Db()).(memberships := old(memberships) + {r.value}))
    {
      var m := Membership(personId, roleId, committeeId);
      if m in memberships || personId !in persons || roleId !in roles || committeeId !in committees {
        return Failure(IntegrityError);
      }
      memberships := memberships + {m};
      r := Success(m);
    }

    /** The query for the person with this email. */
    static method FindByEmail(persons: map<int, Person>, email: string) returns (hit: Option<int>)
      ensures hit.Some? <==> HasEmail(persons, email)
      ensures hit.Some? ==> hit.value in persons && persons[hit.value].email == email
    {
      if HasEmail(persons, email) {
        var p :| p in persons && persons[p].email == email;
        hit := Some(p);
      } else {
        hit := None;
      }
    }

    /** The attribute assignments of `add_or_update_person` on a found person, one field at a time. */
    static method AssignFields(current: Person, name: string, found: bool, organization: Option<string>,
                               username: Option<string>, unionId: Option<int>) returns (person: Person)
      ensures person.email == current.email
      ensures person == UpdatedPerson(current, name, found, organization, username, unionId)
    {
      person := current;
      person := person.(name := name);
      person := person.(foundInSystem := found);
      person := person.(organization := if organization.Some? then organization else person.organization);
      person := person.(username := if username.Some? then username else person.username);
      person := person.(unionId := if unionId.Some? then unionId else person.unionId);
    }

    /** `add_or_update_person`: the person with the email is updated, or a new one is inserted. */
    method AddOrUpdatePerson(name: string, email: string, found: bool, organization: Option<string>,
                             username: Option<string>, unionId: Option<int>) returns (r: Result<int, DbError>)
      requires Valid()
      modifies this
      ensures Valid()
      ensures var u := Upsert(old(Db()), name, email, found, organization, username, unionId, old(nextId));
        if u.Failure? then r == Failure(u.error) && Db() == old(Db())
        else r == Success(u.value.1) && Db() == u.value.0
    {
      ghost var t := Db();
      var hit := FindByEmail(persons, email);
      if hit.Some? {
        var p := hit.value;
        var person := AssignFields(persons[p], name, found, organization, username, unionId);
        if unionId.Some? && unionId.value !in unions {
          // the commit breaks the foreign key and is rolled back
          return Failure(IntegrityError);
        }
        UpsertUpdateValid(t, name, email, found, organization, username, unionId, nextId, p);
        persons := persons[p := person];
        assert Db() == t.(persons := t.persons[p := UpdatedPerson(t.persons[p], name, found, organization, username, unionId)]);
        r := Success(p);
      } else {
        if unionId.Some? && unionId.value !in unions {
          return Failure(IntegrityError);
        }
        UpsertInsertValid(t, name, email, found, organization, username, unionId, nextId);
        persons := persons[nextId := Person(username, name, email, organization, found, unionId)];
        assert Db() == t.(persons := t.persons[old(nextId) := Person(username, name, email, organization, found, unionId)]);
        r := Success(nextId);
        nextId := nextId + 1;
      }
    }

    /** `update_committee` with the "leave the parent alone" sentinel. */
    method UpdateCommittee(id: int, name: Option<string>, typeId: Option<int>, parent: ParentArg)
      returns (r: Result<int, DbError>)
      requires Valid()
      modifies this
      ensures Valid()
      ensures var u := UpdateCommitteeSpec(old(Db()), id, name, typeId, parent);
        if u.Failure? then r == Failure(u.error) && Db() == old(Db())
        else r == Success(id) && Db() == u.value
    {
      ghost var t0 := Db();
      UpdateCommitteeConsistent(t0, id, name, typeId, parent);
      UpdateCommitteeKeys(t0, id, name, typeId, parent, nextId);
      if id !in committees {
        return Failure(NotFound);
      }
      var committee := committees[id];
      if name.Some? {
        committee := committee.(name := name.value);
      }
      if typeId.Some? {
        committee := committee.(typeId := typeId.value);
      }
      if parent.SetParent? {
        committee := committee.(parentId := parent.parent);
      }
      if (typeId.Some? && typeId.value !in types)
         || (parent.SetParent? && parent.parent.Some? && parent.parent.value !in committees) {
        return Failure(IntegrityError);
      }
      committees := committees[id := committee];
      assert Db() == UpdateCommitteeSpec(t0, id, name, typeId, parent).value;
      r := Success(id);
    }

    /** `update_committee_type`: renames a type; a missing id or a taken name is refused. */
    method UpdateCommitteeType(id: int, name: string) returns (r: Result<int, DbError>)
      requires Valid()
      modifies this
      ensures Valid()
      ensures r.Success? <==> id in old(types) && !(exists k | k in old(types) && k != id :: old(types)[k].name == name)
      ensures id !in old(types) ==> r == Failure(NotFound)
      ensures (id in old(types) && (exists k | k in old(types) && k != id :: old(types)[k].name == name))
        ==> r == Failure(IntegrityError)
      ensures r.Failure? ==> Db() == old(Db())
      ensures r.Success? ==>
        (r.value == id && id in old(types)
         && Db() == old(Db()).(types := old(types)[id := old(types)[id].(name := name)]))
    {
      if id !in types {
        return Failure(NotFound);
      }
      if exists k | k in types && k != id :: types[k].name == name {
        return Failure(IntegrityError);
      }
      types := types[id := types[id].(name := name)];
      r := Success(id);
    }

    /** `update_role`: renames a role; a missing id or a taken name is refused. */
    method UpdateRole(id: int, name: string) returns (r: Result<int, DbError>)
      requires Valid()
      modifies this
      ensures Valid()
      ensures r.Success? <==> id in old(roles) && !(exists k | k in old(roles) && k != id :: old(roles)[k].name == name)
      ensures id !in old(roles) ==> r == Failure(NotFound)
      ensures (id in old(roles) && (exists k | k in old(roles) && k != id :: old(roles)[k].name == name))
        ==> r == Failure(IntegrityError)
      ensures r.Failure? ==> Db() == old(Db())
      ensures r.Success? ==>
        (r.value == id && id in old(roles) && Db() == old(Db()).(roles := old(roles)[id := Role(name)]))
    {
      if id !in roles {
        return Failure(NotFound);
      }
      if exists k | k in roles && k != id :: roles[k].name == name {
        return Failure(IntegrityError);
      }
      roles := roles[id := Role(name)];
      r := Success(id);
    }

    /** `update_union`: sets name and description; a missing id or a taken name is refused. */
    method UpdateUnion(id: int, name: string, description: Option<string>) returns (r: Result<int, DbError>)
      requires Valid()
      modifies this
      ensures Valid()
      ensures r.Success? <==> id in old(unions) && !(exists k | k in old(unions) && k != id :: old(unions)[k].name == name)
      ensures id !in old(unions) ==> r == Failure(NotFound)
      ensures (id in old(unions) && (exists k | k in old(unions) && k != id :: old(unions)[k].name == name))
        ==> r == Failure(IntegrityError)
      ensures r.Failure? ==> Db() == old(Db())
      ensures r.Success? ==>
        (r.value == id && id in old(unions) && Db() == old(Db()).(unions := old(unions)[id := Union(name, description)]))
    {
      if id !in unions {
        return Failure(NotFound);
      }
      if exists k | k in unions && k != id :: unions[k].name == name {
        return Failure(IntegrityError);
      }
      unions := unions[id := Union(name, description)];
      r := Success(id);
    }

    /** `delete_committee_type`: refused when missing or still used by a committee. */
    method DeleteCommitteeType(id: int) returns (r: Result<int, DbError>)
      requires Valid()
      modifies this
      ensures Valid()
      ensures r.Success? <==> id in old(types) && !(exists c | c in old(committees) :: old(committees)[c].typeId == id)
      ensures id !in old(types) ==> r == Failure(NotFound)
      ensures (id in old(types) && (exists c | c in old(committees) :: old(committees)[c].typeId == id))
        ==> r == Failure(IntegrityError)
      ensures r.Failure? ==> Db() == old(Db())
      ensures r.Success? ==> r.value == id && id in old(types) && Db() == old(Db()).(types := old(types) - {id})
    {
      if id !in types {
        return Failure(NotFound);
      }
      if exists c | c in committees :: committees[c].typeId == id {
        // the committees' type_id cannot be blanked out: NOT NULL
        return Failure(IntegrityError);
      }
      types := types - {id};
      r := Success(id);
    }

    /** `delete_role`: refused when missing or still used by a membership. */
    method DeleteRole(id: int) returns (r: Result<int, DbError>)
      requires Valid()
      modifies this
      ensures Valid()
      ensures r.Success? <==> id in old(roles) && !(exists m | m in old(memberships) :: m.roleId == id)
      ensures id !in old(roles) ==> r == Failure(NotFound)
      ensures (id in old(roles) && (exists m | m in old(memberships) :: m.roleId == id))
        ==> r == Failure(IntegrityError)
      ensures r.Failure? ==> Db() == old(Db())
      ensures r.Success? ==> r.value == id && id in old(roles) && Db() == old(Db()).(roles := old(roles) - {id})
    {
      if id !in roles {
        return Failure(NotFound);
      }
      if exists m | m in memberships :: m.roleId == id {
        // role_id is part of the membership's primary key and cannot be blanked out
        return Failure(IntegrityError);
      }
      roles := roles - {id};
      r := Success(id);
    }

    /** `delete_union`: refused when missing; its members' `union_id` becomes NULL. */
    method DeleteUnion(id: int) returns (r: Result<int, DbError>)
      requires Valid()
      modifies this
      ensures Valid()
      ensures r.Failure? <==> id !in old(unions)
      ensures r.Failure? ==> r.error == NotFound && Db() == old(Db())
      ensures r.Success? ==>
        (r.value == id
         && unions == old(unions) - {id}
         && persons.Keys == old(persons).Keys
         && (forall p | p in persons ::
               persons[p] == if old(persons)[p].unionId == Some(id) then old(persons)[p].(unionId := None)
                             else old(persons)[p])
         && Db() == old(Db()).(unions := unions, persons := persons))
    {
      if id !in unions {
        return Failure(NotFound);
      }
      ghost var t0 := Db();
      persons := map p | p in persons ::
        if persons[p].unionId == Some(id) then persons[p].(unionId := None) else persons[p];
      unions := unions - {id};
      assert Db() == DetachUnion(t0, id);
      DetachUnionValid(t0, id, nextId);
      r := Success(id);
    }

    /** `delete_committee_member`, with the orphan check after the flush. */
    method DeleteCommitteeMember(committeeId: int, personId: int, roleId: int) returns (r: Result<int, DbError>)
      requires Valid()
      modifies this
      ensures Valid()
      ensures var u := DeleteMemberSpec(old(Db()), committeeId, personId, roleId);
        if u.Failure? then r == Failure(u.error) && Db() == old(Db())
        else r == Success(personId) && Db() == u.value
    {
      ghost var t0 := Db();
      DeleteMemberConsistent(t0, committeeId, personId, roleId);
      DeleteMemberKeys(t0, committeeId, personId, roleId, nextId);
      var m := Membership(personId, roleId, committeeId);
      if m !in memberships {
        return Failure(NotFound);
      }
      memberships := memberships - {m};
      if !exists m2 | m2 in memberships :: m2.personId == personId {
        persons := persons - {personId};
      } else {
        var m2 :| m2 in memberships && m2.personId == personId;
        assert personId in MemberIds(memberships);
      }
      assert Db() == DeleteMemberSpec(t0, committeeId, personId, roleId).value;
      r := Success(personId);
    }

    /**
     * `delete_committee`: the memberships go first, then every person left
     * without a membership, then the children are moved to top level and the
     * committee is deleted.
     */
    method DeleteCommittee(id: int) returns (r: Result<int, DbError>)
      requires Valid()
      modifies this
      ensures Valid()
      ensures var u := DeleteCommitteeSpec(old(Db()), id);
        if u.Failure? then r == Failure(u.error) && Db() == old(Db())
        else r == Success(id) && Db() == u.value
    {
      ghost var t0 := Db();
      DeleteCommitteeConsistent(t0, id);
      DeleteCommitteeKeys(t0, id, nextId);
      if id !in committees {
        return Failure(NotFound);
      }
      memberships := set m | m in memberships && m.committeeId != id;
      var members := MemberIds(memberships);
      persons := map p | p in persons && p in members :: persons[p];
      committees := map c | c in committees && c != id ::
        if committees[c].parentId == Some(id) then committees[c].(parentId := None) else committees[c];
      assert Db() == DeleteCommitteeSpec(t0, id).value;
      r := Success(id);
    }
  }
}
