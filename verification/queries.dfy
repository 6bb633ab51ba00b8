/**
 * The read-only queries of the data layer, as functions of the tables.
 * A query returns the set of matching primary keys (row order is the
 * database's and is not modelled).
 */
module Queries {
  import opened Wrappers
  import opened Models
  import opened Hierarchy

  /** `get_all_committee_types`: protected types are listed only on request. */
  function CommitteeTypes(t: Tables, includeProtected: bool): (r: set<int>)
    ensures r <= t.types.Keys
    ensures forall id | id in t.types :: id in r <==> includeProtected || !t.types[id].isProtected
  {
    set id | id in t.types && (includeProtected || !t.types[id].isProtected)
  }

  /** `get_persons_not_in_system`: the persons whose `found_in_system` is not True. */
  function PersonsNotInSystem(t: Tables): (r: set<int>)
    ensures forall p :: p in r <==> p in t.persons && !t.persons[p].foundInSystem
  {
    set p | p in t.persons && !t.persons[p].foundInSystem
  }

  /**
   * The recursive `descendants` CTE: the committees whose ancestor chain
   * meets an existing committee listed in `tops` (the tops included).
   */
  function Descendants(t: Tables, tops: seq<int>): set<int>
    requires Acyclic(ParentsOf(t.committees))
  {
    set c | c in t.committees && exists a | a in Chain(ParentsOf(t.committees), c) :: a in tops && a in t.committees
  }

  /** The CTE's anchor: every existing top committee is in the closure. */
  lemma DescendantsHaveTops(t: Tables, tops: seq<int>, c: int)
    requires Acyclic(ParentsOf(t.committees))
    requires c in tops && c in t.committees
    ensures c in Descendants(t, tops)
  {
    assert Chain(ParentsOf(t.committees), c)[0] == c;
  }

  /** The CTE's recursive step: a child of a committee in the closure is in it. */
  lemma DescendantsClosedUnderChildren(t: Tables, tops: seq<int>, p: int, c: int)
    requires Acyclic(ParentsOf(t.committees))
    requires c in t.committees && t.committees[c].parentId == Some(p)
    requires p in Descendants(t, tops)
    ensures c in Descendants(t, tops)
  {
    var pm := ParentsOf(t.committees);
    ChainStep(pm, c);
    var a :| a in Chain(pm, p) && a in tops && a in t.committees;
    assert a in Chain(pm, c);
  }

  /**
   * Nothing else is in the closure: a member is a top itself or the child of
   * a member. With the two lemmas above, the closure is exactly what the
   * recursive query computes when the parent pointers are acyclic.
   */
  lemma DescendantsAreReached(t: Tables, tops: seq<int>, c: int)
    requires Acyclic(ParentsOf(t.committees))
    requires c in Descendants(t, tops)
    ensures c in tops || (t.committees[c].parentId.Some? && t.committees[c].parentId.value in Descendants(t, tops))
  {
    var pm := ParentsOf(t.committees);
    ChainStep(pm, c);
    var a :| a in Chain(pm, c) && a in tops && a in t.committees;
    if a != c {
      var p := t.committees[c].parentId.value;
      assert a in Chain(pm, p);
    }
  }

  /** The `union_ids` filter: a None in the list admits persons without a union. */
  predicate UnionAdmits(unionIds: Option<seq<Option<int>>>, u: Option<int>) {
    match unionIds
    case None => true
    case Some(ids) =>
      ids == [] || (if None in ids then u.None? || u in ids else u.Some? && u in ids)
  }

  /**
   * Whether one membership row, joined with its person, passes every filter
   * of `get_persons_by_roles_and_top_committees`.
   */
  predicate RowAdmitted(t: Tables, m: Membership, roleIds: seq<int>, tops: seq<int>,
                        unionIds: Option<seq<Option<int>>>, inSystem: Option<bool>)
    requires tops != [] ==> Acyclic(ParentsOf(t.committees))
    requires m.personId in t.persons
  {
    var p := t.persons[m.personId];
    (inSystem.None? || p.foundInSystem == inSystem.value)
    && UnionAdmits(unionIds, p.unionId)
    && (roleIds == [] || m.roleId in roleIds)
    && (tops == [] || m.committeeId in Descendants(t, tops))
  }

  /**
   * `get_persons_by_roles_and_top_committees`: the distinct persons with a
   * membership row that passes every filter; the role and the committee are
   * checked on the same row. Only a query with top committees runs the
   * recursive `UNION ALL`, which ends only on acyclic parent pointers.
   */
  function PersonsByRolesAndTopCommittees(t: Tables, roleIds: seq<int>, tops: seq<int>,
                                          unionIds: Option<seq<Option<int>>>, inSystem: Option<bool>): (r: set<int>)
    requires tops != [] ==> Acyclic(ParentsOf(t.committees))
    ensures r <= t.persons.Keys
    ensures r <= MemberIds(t.memberships)
  {
    set m | m in t.memberships && m.personId in t.persons
                && RowAdmitted(t, m, roleIds, tops, unionIds, inSystem) :: m.personId
  }

  /** With every filter empty or None, the query returns every person holding a membership. */
  lemma NoFiltersNoConstraint(t: Tables)
    requires ReferencesExist(t)
    ensures PersonsByRolesAndTopCommittees(t, [], [], None, None) == MemberIds(t.memberships)
  {
    forall p | p in MemberIds(t.memberships)
      ensures p in PersonsByRolesAndTopCommittees(t, [], [], None, None)
    {
      var m :| m in t.memberships && m.personId == p;
      assert RowAdmitted(t, m, [], [], None, None);
    }
  }

  /**
   * A person is returned exactly when one of their membership rows passes all
   * filters at once; in particular a matching role in one committee and a
   * membership in the closure under another role do not combine.
   */
  lemma PersonsByRolesMembership(t: Tables, roleIds: seq<int>, tops: seq<int>,
                                 unionIds: Option<seq<Option<int>>>, inSystem: Option<bool>, p: int)
    requires tops != [] ==> Acyclic(ParentsOf(t.committees))
    ensures p in PersonsByRolesAndTopCommittees(t, roleIds, tops, unionIds, inSystem) <==>
      p in t.persons && exists m | m in t.memberships && m.personId == p ::
        RowAdmitted(t, m, roleIds, tops, unionIds, inSystem)
  {
  }
}
