/**
 * The relational schema: one record per table row, the tables as maps from
 * primary key to row, and the keys and constraints the schema declares.
 */
module Models {
  import opened Wrappers

  /** `committee_type`: name is unique and non-null, `is_protected` defaults to False. */
  datatype CommitteeType = CommitteeType(name: string, isProtected: bool)

  /** `committee`: `type_id` must name a type, `parent_id` is a nullable self-reference (ON DELETE SET NULL). */
  datatype Committee = Committee(name: string, typeId: int, parentId: Option<int>)

  /** `union`: name is unique and non-null, description nullable. */
  datatype Union = Union(name: string, description: Option<string>)

  /**
   * `person`: email is unique and non-null, `found_in_system` defaults to False,
   * `union_id` is a nullable reference set to NULL when its union is deleted.
   */
  datatype Person = Person(
    username: Option<string>,
    name: string,
    email: string,
    organization: Option<string>,
    foundInSystem: bool,
    unionId: Option<int>)

  /** `role`: name is unique and non-null. */
  datatype Role = Role(name: string)

  /**
   * `committee_membership`: the whole triple is the primary key, so a triple
   * occurs at most once (the table is a set) while one person may hold several
   * roles in one committee.
   */
  datatype Membership = Membership(personId: int, roleId: int, committeeId: int)

  /** The whole database: every table keyed by its primary key. */
  datatype Tables = Tables(
    types: map<int, CommitteeType>,
    committees: map<int, Committee>,
    unions: map<int, Union>,
    persons: map<int, Person>,
    roles: map<int, Role>,
    memberships: set<Membership>)

  /** A committee type created without saying otherwise is not protected. */
  function DefaultCommitteeType(name: string): (t: CommitteeType)
    ensures t.name == name && !t.isProtected
  {
    CommitteeType(name, false)
  }

  /** A person created without saying otherwise is not found in the system and has no union. */
  function DefaultPerson(name: string, email: string): (p: Person)
    ensures p.name == name && p.email == email
    ensures !p.foundInSystem && p.unionId.None? && p.username.None? && p.organization.None?
  {
    Person(None, name, email, None, false, None)
  }

  predicate TypeNamesUnique(types: map<int, CommitteeType>) {
    forall a, b | a in types && b in types && a != b :: types[a].name != types[b].name
  }

  predicate UnionNamesUnique(unions: map<int, Union>) {
    forall a, b | a in unions && b in unions && a != b :: unions[a].name != unions[b].name
  }

  predicate RoleNamesUnique(roles: map<int, Role>) {
    forall a, b | a in roles && b in roles && a != b :: roles[a].name != roles[b].name
  }

  predicate EmailsUnique(persons: map<int, Person>) {
    forall a, b | a in persons && b in persons && a != b :: persons[a].email != persons[b].email
  }

  /** Every foreign key points at an existing row. */
  predicate ReferencesExist(t: Tables) {
    (forall c | c in t.committees :: t.committees[c].typeId in t.types)
    && (forall c | c in t.committees && t.committees[c].parentId.Some? ::
          t.committees[c].parentId.value in t.committees)
    && (forall p | p in t.persons && t.persons[p].unionId.Some? :: t.persons[p].unionId.value in t.unions)
    && (forall m | m in t.memberships ::
          m.personId in t.persons && m.roleId in t.roles && m.committeeId in t.committees)
  }

  /** Every key and constraint the schema declares. */
  predicate Consistent(t: Tables) {
    ReferencesExist(t)
    && TypeNamesUnique(t.types) && UnionNamesUnique(t.unions)
    && RoleNamesUnique(t.roles) && EmailsUnique(t.persons)
  }

  /** The persons holding at least one membership. */
  function MemberIds(ms: set<Membership>): set<int> {
    set m | m in ms :: m.personId
  }

  /** The parent pointers of the committee table. */
  function ParentsOf(committees: map<int, Committee>): map<int, Option<int>> {
    map c | c in committees :: committees[c].parentId
  }
}
