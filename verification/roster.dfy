/**
 * The member table of a committee: every page lists the members ordered by
 * the position of their role in a list of priority roles (roles not in the
 * list after all listed ones), then by role name, then by person name, and
 * offers a mail link to everyone with an e-mail address.
 */
module Roster {
  import opened Text
  import opened Sorting

  /** One row of the table: person name, role name, e-mail. */
  datatype Member = Member(name: string, role: string, email: string)

  /** The priority roles of the front page and the first app. */
  const PriorityRoles: seq<string> := ["Formand", "Næstformand", "Sekretær", "Udvalgsadministrator"]

  /**
   * `get_priority`: `priorities.index(role)` when the role is listed, else
   * `len(priorities)`.
   */
  function Priority(priorities: seq<string>, role: string): (p: nat)
    ensures p <= |priorities|
    ensures p < |priorities| ==> priorities[p] == role && role !in priorities[..p]
    ensures p == |priorities| <==> role !in priorities
  {
    if priorities == [] then 0
    else if priorities[0] == role then 0
    else
      var p := 1 + Priority(priorities[1..], role);
      assert priorities == [priorities[0]] + priorities[1..];
      assert p < |priorities| ==> priorities[..p] == [priorities[0]] + priorities[1..][..p - 1];
      p
  }

  /** Python's `<` on strings. */
  predicate StrLt(a: string, b: string) {
    LexLe(a, b) && a != b
  }

  /** `key(a) <= key(b)` for the key `(priority, role, name)`, tuples compared lexicographically. */
  predicate MemberLe(priorities: seq<string>, a: Member, b: Member) {
    var pa, pb := Priority(priorities, a.role), Priority(priorities, b.role);
    pa < pb || (pa == pb && (StrLt(a.role, b.role) || (a.role == b.role && LexLe(a.name, b.name))))
  }

  function Le(priorities: seq<string>): (Member, Member) -> bool {
    (a: Member, b: Member) => MemberLe(priorities, a, b)
  }

  lemma MemberLeTotalPreorder(priorities: seq<string>)
    ensures TotalPreorder(Le(priorities))
  {
    var le := Le(priorities);
    forall a: Member, b: Member
      ensures le(a, b) || le(b, a)
    {
      LexLeTotal(a.role, b.role);
      LexLeTotal(a.name, b.name);
    }
    forall a: Member, b: Member, c: Member | le(a, b) && le(b, c)
      ensures le(a, c)
    {
      if a.role != b.role && b.role != c.role && LexLe(a.role, b.role) && LexLe(b.role, c.role) {
        LexLeTransitive(a.role, b.role, c.role);
        if a.role == c.role {
          LexLeAntisymmetric(a.role, b.role);
        }
      } else if a.role == b.role && b.role == c.role {
        if LexLe(a.name, b.name) && LexLe(b.name, c.name) {
          LexLeTransitive(a.name, b.name, c.name);
        }
      }
    }
  }

  /** `sorted(rows, key=lambda x: (get_priority(x.role), x.role, x.name))` */
  function SortMembers(priorities: seq<string>, ms: seq<Member>): (r: seq<Member>)
    ensures multiset(r) == multiset(ms)
    ensures SortedBy(r, Le(priorities))
  {
    MemberLeTotalPreorder(priorities);
    SortBySorted(ms, Le(priorities));
    SortBy(ms, Le(priorities))
  }

  /** Members holding a listed role come before every member holding an unlisted one. */
  lemma ListedRolesFirst(priorities: seq<string>, ms: seq<Member>, i: int, j: int)
    requires 0 <= i < j < |ms|
    ensures var r := SortMembers(priorities, ms);
      r[j].role in priorities ==> r[i].role in priorities
  {
    var r := SortMembers(priorities, ms);
    assert Le(priorities)(r[i], r[j]);
  }

  /** A committee with a chair lists a chair first. */
  lemma ChairFirst(ms: seq<Member>, m: Member)
    requires m in ms && m.role == "Formand"
    ensures SortMembers(PriorityRoles, ms)[0].role == "Formand"
  {
    var r := SortMembers(PriorityRoles, ms);
    assert m in multiset(r);
    var k :| 0 <= k < |r| && r[k] == m;
    assert Priority(PriorityRoles, m.role) == 0;
    if k > 0 {
      assert Le(PriorityRoles)(r[0], r[k]);
    }
  }

  /** A list already in table order is shown as it is. */
  lemma SortMembersOfSorted(priorities: seq<string>, ms: seq<Member>)
    requires SortedBy(ms, Le(priorities))
    ensures SortMembers(priorities, ms) == ms
  {
    SortByOfSorted(ms, Le(priorities));
  }

  /** `[m.email for m in memberships if m.email]`: the addresses of the mail link. */
  function MailRecipients(ms: seq<Member>): (r: seq<string>)
    ensures |r| <= |ms|
    ensures forall e | e in r :: e != []
    ensures forall i | 0 <= i < |ms| :: ms[i].email != [] ==> ms[i].email in r
    ensures forall e | e in r :: exists i | 0 <= i < |ms| :: ms[i].email == e
  {
    if ms == [] then []
    else
      var rest := MailRecipients(ms[1..]);
      assert forall e | e in rest :: exists i | 0 <= i < |ms[1..]| :: ms[1..][i].email == e;
      if ms[0].email != [] then [ms[0].email] + rest else rest
  }

  /** The addresses keep the members' order and repeats: joining two lists joins their addresses. */
  lemma {:induction false} MailRecipientsAppend(a: seq<Member>, b: seq<Member>)
    ensures MailRecipients(a + b) == MailRecipients(a) + MailRecipients(b)
  {
    if a == [] {
      assert a + b == b;
    } else {
      assert (a + b)[1..] == a[1..] + b;
      MailRecipientsAppend(a[1..], b);
    }
  }
}
