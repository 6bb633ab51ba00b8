/**
 * The person search of the Delta directory client: the criteria it sends
 * for the given search parameters, and how it reads persons out of the
 * graph-query response.
 *
 * The request itself is not modelled; the response the directory gives is
 * a parameter. Keys a response lacks are read with the defaults the client
 * uses (`[]`, `{}`, None), so a missing list is an empty sequence here and
 * a missing value is None.
 */
module Delta {
  import opened Wrappers
  import opened Directory

  const EngagementRelation := "APOS-Types-Engagement-TypeRelation-Person"
  const UserRelation := "APOS-Types-User-TypeRelation-Person"
  const EmailAttribute := "APOS-Types-Engagement-Attribute-Email"
  const AdmUnitRelation := "APOS-Types-Engagement-TypeRelation-AdmUnit"
  const ActiveState := "STATE_ACTIVE"

  const NameAlias := "person.$name"
  const EmailAlias := "person.emp.email"
  const UsernameAlias := "person.user.$userKey"

  // ---------------------------------------------------------------------
  // Criteria

  datatype Operator = Like | Equal

  /** `{"type": "MATCH", "operator": …, "left": {"alias": …}, "right": {"value": …}}` */
  datatype Criterion = Criterion(operator: Operator, alias: string, value: string)

  /**
   * The criteria of a search, in the order name, e-mail, user name: name
   * and e-mail as `LIKE %…%` patterns, the user name compared for equality.
   * They are sent in one AND group.
   */
  method SearchCriteria(name: Option<string>, email: Option<string>, username: Option<string>)
    returns (criteria: seq<Criterion>)
    ensures |criteria| <= 3
    ensures |criteria| == (if Truthy(name) then 1 else 0) + (if Truthy(email) then 1 else 0) + (if Truthy(username) then 1 else 0)
    ensures criteria == [] <==> !Truthy(name) && !Truthy(email) && !Truthy(username)
    ensures Truthy(name) ==> criteria[0] == Criterion(Like, NameAlias, "%" + name.value + "%")
    ensures Truthy(email) <==> exists c | c in criteria :: c.alias == EmailAlias
    ensures Truthy(email) ==> Criterion(Like, EmailAlias, "%" + email.value + "%") in criteria
    ensures Truthy(username) ==> criteria[|criteria| - 1] == Criterion(Equal, UsernameAlias, username.value)
    ensures forall c | c in criteria ::
      || (c.alias == NameAlias && Truthy(name))
      || (c.alias == EmailAlias && Truthy(email))
      || (c.alias == UsernameAlias && Truthy(username))
  {
    criteria := [];
    if Truthy(name) {
      criteria := criteria + [Criterion(Like, NameAlias, "%" + name.value + "%")];
    }
    if Truthy(email) {
      criteria := criteria + [Criterion(Like, EmailAlias, "%" + email.value + "%")];
    }
    if Truthy(username) {
      criteria := criteria + [Criterion(Equal, UsernameAlias, username.value)];
    }
  }

  // ---------------------------------------------------------------------
  // The response

  /** An `identity` object: its `name` and `userKey`. */
  datatype Identity = Identity(name: Option<string>, userKey: Option<string>)

  /** An engagement attribute: `userKey` and `value`. */
  datatype Attribute = Attribute(userKey: Option<string>, value: Option<string>)

  /** An outgoing relation of an engagement, with its target's identity. */
  datatype TypeRef = TypeRef(userKey: Option<string>, target: Identity)

  /** The `targetObject` of an incoming relation. */
  datatype Target = Target(state: Option<string>, attributes: seq<Attribute>, typeRefs: seq<TypeRef>, identity: Identity)

  /** An entry of `inTypeRefs`. */
  datatype InTypeRef = InTypeRef(userKey: Option<string>, target: Target)

  /** A person instance of the result. */
  datatype Instance = Instance(identity: Identity, inTypeRefs: seq<InTypeRef>)

  /** An entry of `graphQueryResult`. */
  datatype QueryResult = QueryResult(instances: seq<Instance>)

  datatype Response = Response(graphQueryResult: seq<QueryResult>)

  /** The e-mail after reading `attrs`: the value of the last e-mail attribute, if any. */
  function EmailAfter(attrs: seq<Attribute>, email: Option<string>): (r: Option<string>)
    ensures r == email || exists i | 0 <= i < |attrs| :: attrs[i].userKey == Some(EmailAttribute) && r == attrs[i].value
    ensures (forall i | 0 <= i < |attrs| :: attrs[i].userKey != Some(EmailAttribute)) ==> r == email
    decreases |attrs|
  {
    if attrs == [] then email
    else
      var last := attrs[|attrs| - 1];
      if last.userKey == Some(EmailAttribute) then last.value else EmailAfter(attrs[..|attrs| - 1], email)
  }

  /** The department after reading `refs`: the name of the last administrative unit, if any. */
  function DepartmentAfter(refs: seq<TypeRef>, department: Option<string>): (r: Option<string>)
    ensures r == department || exists i | 0 <= i < |refs| :: refs[i].userKey == Some(AdmUnitRelation) && r == refs[i].target.name
    ensures (forall i | 0 <= i < |refs| :: refs[i].userKey != Some(AdmUnitRelation)) ==> r == department
    decreases |refs|
  {
    if refs == [] then department
    else
      var last := refs[|refs| - 1];
      if last.userKey == Some(AdmUnitRelation) then last.target.name else DepartmentAfter(refs[..|refs| - 1], department)
  }

  /** The variables `email`, `afdeling` and `username` of the parsing loop. */
  datatype Scan = Scan(email: Option<string>, department: Option<string>, username: Option<string>)

  /** Reading one incoming relation of an instance. */
  function RefStep(s: Scan, ref: InTypeRef): Scan {
    if ref.userKey == Some(EngagementRelation) then
      if ref.target.state == Some(ActiveState) then
        s.(email := EmailAfter(ref.target.attributes, s.email),
           department := DepartmentAfter(ref.target.typeRefs, s.department))
      else s
    else if ref.userKey == Some(UserRelation) then s.(username := ref.target.identity.userKey)
    else s
  }

  /** Reading the incoming relations `refs` in order. */
  function ScanAfter(refs: seq<InTypeRef>, s: Scan): Scan
    decreases |refs|
  {
    if refs == [] then s else RefStep(ScanAfter(refs[..|refs| - 1], s), refs[|refs| - 1])
  }

  /** The record for one instance once its relations are read; None when it is skipped. */
  function InstanceRecord(inst: Instance, s: Scan): Option<Record> {
    if Truthy(s.department) && Truthy(s.email) then
      Some(Record(OrDash(inst.identity.name), s.email.value, s.department.value, OrDash(s.username)))
    else None
  }

  /**
   * The records read from `instances` and the user name left over: the
   * e-mail and department start afresh for every instance, the user name
   * carries over from the instances before.
   */
  function ParseAll(instances: seq<Instance>, username: Option<string>): (seq<Record>, Option<string>)
    decreases |instances|
  {
    if instances == [] then ([], username)
    else
      var (records, user) := ParseAll(instances[..|instances| - 1], username);
      var inst := instances[|instances| - 1];
      var s := ScanAfter(inst.inTypeRefs, Scan(None, None, user));
      match InstanceRecord(inst, s)
      case Some(r) => (records + [r], s.username)
      case None => (records, s.username)
  }

  /** The nested loops over instances, relations, attributes and units. */
  method ParseInstances(instances: seq<Instance>, username: Option<string>) returns (results: seq<Record>)
    ensures results == ParseAll(instances, username).0
  {
    results := [];
    var user := username;
    var i := 0;
    while i < |instances|
      invariant 0 <= i <= |instances|
      invariant (results, user) == ParseAll(instances[..i], username)
    {
      var inst := instances[i];
      var email: Option<string> := None;
      var department: Option<string> := None;
      ghost var user0 := user;
      var j := 0;
      while j < |inst.inTypeRefs|
        invariant 0 <= j <= |inst.inTypeRefs|
        invariant Scan(email, department, user) == ScanAfter(inst.inTypeRefs[..j], Scan(None, None, user0))
      {
        var ref := inst.inTypeRefs[j];
        if ref.userKey == Some(EngagementRelation) {
          if ref.target.state == Some(ActiveState) {
            ghost var email0, department0 := email, department;
            var k := 0;
            while k < |ref.target.attributes|
              invariant 0 <= k <= |ref.target.attributes|
              invariant email == EmailAfter(ref.target.attributes[..k], email0)
            {
              var attr := ref.target.attributes[k];
              if attr.userKey == Some(EmailAttribute) {
                email := attr.value;
              }
              assert ref.target.attributes[..k + 1][..k] == ref.target.attributes[..k];
              k := k + 1;
            }
            assert ref.target.attributes[..k] == ref.target.attributes;
            k := 0;
            while k < |ref.target.typeRefs|
              invariant 0 <= k <= |ref.target.typeRefs|
              invariant department == DepartmentAfter(ref.target.typeRefs[..k], department0)
            {
              var tref := ref.target.typeRefs[k];
              if tref.userKey == Some(AdmUnitRelation) {
                department := tref.target.name;
              }
              assert ref.target.typeRefs[..k + 1][..k] == ref.target.typeRefs[..k];
              k := k + 1;
            }
            assert ref.target.typeRefs[..k] == ref.target.typeRefs;
          }
        } else if ref.userKey == Some(UserRelation) {
          user := ref.target.identity.userKey;
        }
        assert inst.inTypeRefs[..j + 1][..j] == inst.inTypeRefs[..j];
        j := j + 1;
      }
      assert inst.inTypeRefs[..j] == inst.inTypeRefs;
      if Truthy(department) && Truthy(email) {
        results := results + [Record(OrDash(inst.identity.name), email.value, department.value, OrDash(user))];
      }
      assert instances[..i + 1][..i] == instances[..i];
      i := i + 1;
    }
    assert instances[..i] == instances;
  }

  /**
   * `search`: no request and an error without any parameter; otherwise the
   * persons of the first query result, none when the response has no
   * result. The user name argument is where the shared loop variable starts.
   */
  method Search(name: Option<string>, email: Option<string>, username: Option<string>, response: Response)
    returns (sent: seq<Criterion>, r: Result<seq<Record>, SearchError>)
    ensures r.Failure? <==> sent == []
    ensures r.Failure? <==> !Truthy(name) && !Truthy(email) && !Truthy(username)
    ensures r.Success? && response.graphQueryResult == [] ==> r.value == []
    ensures r.Success? && response.graphQueryResult != [] ==>
      r.value == ParseAll(response.graphQueryResult[0].instances, username).0
  {
    sent := SearchCriteria(name, email, username);
    if sent == [] {
      return sent, Failure(NoSearchParameter);
    }
    if response.graphQueryResult == [] {
      return sent, Success([]);
    }
    var results := ParseInstances(response.graphQueryResult[0].instances, username);
    r := Success(results);
  }

  /**
   * `check_email_exists`: whether the e-mail search (a `LIKE %email%`
   * match) finds anyone; an empty address is refused like any search
   * without parameters.
   */
  method CheckEmailExists(email: string, response: Response) returns (r: Result<bool, SearchError>)
    ensures r.Failure? <==> email == []
    ensures r.Success? ==> (r.value <==>
      response.graphQueryResult != [] && ParseAll(response.graphQueryResult[0].instances, None).0 != [])
  {
    var sent, found := Search(None, Some(email), None, response);
    if found.Failure? {
      return Failure(found.error);
    }
    r := Success(|found.value| > 0);
  }

  // ---------------------------------------------------------------------
  // What the parsing promises

  /** Every record has a real e-mail address and department; the placeholder only stands for name and user name. */
  lemma {:induction false} ParsedRecordsHaveContact(instances: seq<Instance>, username: Option<string>)
    ensures forall r | r in ParseAll(instances, username).0 :: r.email != [] && r.department != []
    ensures |ParseAll(instances, username).0| <= |instances|
    decreases |instances|
  {
    if instances != [] {
      ParsedRecordsHaveContact(instances[..|instances| - 1], username);
    }
  }

  /** Relations other than the user relation leave the user name alone. */
  lemma {:induction false} UsernameInherited(refs: seq<InTypeRef>, s: Scan)
    requires forall i | 0 <= i < |refs| :: refs[i].userKey != Some(UserRelation)
    ensures ScanAfter(refs, s).username == s.username
    decreases |refs|
  {
    if refs != [] {
      UsernameInherited(refs[..|refs| - 1], s);
    }
  }

  /** E-mail and department come from active engagements only: without one, the instance is skipped. */
  lemma {:induction false} OnlyActiveEngagementsCount(refs: seq<InTypeRef>, s: Scan)
    requires forall i | 0 <= i < |refs| :: refs[i].userKey == Some(EngagementRelation) ==> refs[i].target.state != Some(ActiveState)
    ensures ScanAfter(refs, s).email == s.email && ScanAfter(refs, s).department == s.department
    decreases |refs|
  {
    if refs != [] {
      OnlyActiveEngagementsCount(refs[..|refs| - 1], s);
    }
  }

  /**
   * An instance without a user relation that follows one with a user name
   * is reported under the earlier instance's user name.
   */
  lemma UsernameLeaksToNextInstance(first: Instance, second: Instance, username: Option<string>)
    requires forall i | 0 <= i < |second.inTypeRefs| :: second.inTypeRefs[i].userKey != Some(UserRelation)
    requires InstanceRecord(second, ScanAfter(second.inTypeRefs, Scan(None, None, ParseAll([first], username).1))).Some?
    ensures var records := ParseAll([first, second], username).0;
      records != [] && records[|records| - 1].username == OrDash(ScanAfter(first.inTypeRefs, Scan(None, None, username)).username)
  {
    var user := ParseAll([first], username).1;
    assert [first, second][..1] == [first];
    UsernameInherited(second.inTypeRefs, Scan(None, None, user));
  }
}
