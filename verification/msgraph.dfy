/**
 * The alias search of the Microsoft Graph client: the `$filter`
 * expression it sends and the records it makes of the users in the
 * response's `value` list. The response is a parameter.
 */
module Graph {
  import opened Wrappers
  import opened Text
  import opened Directory

  const FilterPrefix := "proxyAddresses/any(p:p eq 'smtp:"
  const FilterSuffix := "')"

  /** `f"proxyAddresses/any(p:p eq 'smtp:{alias}')"` */
  function FilterExpression(alias: string): (r: string)
    ensures StartsWith(r, FilterPrefix) && EndsWith(r, FilterSuffix)
    ensures |r| == |FilterPrefix| + |alias| + |FilterSuffix|
  {
    FilterPrefix + alias + FilterSuffix
  }

  /** The alias a filter expression asks for. */
  function AliasOf(filter: string): string
    requires |filter| >= |FilterPrefix| + |FilterSuffix|
  {
    filter[|FilterPrefix|..|filter| - |FilterSuffix|]
  }

  /** The filter asks for exactly the given alias, whatever characters it holds. */
  lemma FilterNamesAlias(alias: string)
    ensures AliasOf(FilterExpression(alias)) == alias
  {
    var f := FilterExpression(alias);
    assert f[|FilterPrefix|..|f| - |FilterSuffix|] == alias;
  }

  /** A user of the response: `displayName`, `mail`, `officeLocation`, `onPremisesSamAccountName`. */
  datatype User = User(displayName: Option<string>, mail: Option<string>, officeLocation: Option<string>, samAccountName: Option<string>)

  /** The response; a missing `value` list reads as an empty one. */
  datatype Response = Response(value: seq<User>)

  /** The record of one user, `'-'` standing in for each missing field. */
  function UserRecord(u: User): Record {
    Record(OrDash(u.displayName), OrDash(u.mail), OrDash(u.officeLocation), OrDash(u.samAccountName))
  }

  /** `search_alias`: the filter sent and one record per user, in order. */
  method SearchAlias(alias: string, response: Response) returns (filter: string, results: seq<Record>)
    ensures filter == FilterExpression(alias) && AliasOf(filter) == alias
    ensures |results| == |response.value|
    ensures forall i | 0 <= i < |results| :: results[i] == UserRecord(response.value[i])
  {
    filter := FilterExpression(alias);
    FilterNamesAlias(alias);
    results := [];
    var i := 0;
    while i < |response.value|
      invariant 0 <= i <= |response.value|
      invariant |results| == i
      invariant forall k | 0 <= k < i :: results[k] == UserRecord(response.value[k])
    {
      var user := response.value[i];
      results := results + [Record(OrDash(user.displayName), OrDash(user.mail), OrDash(user.officeLocation), OrDash(user.samAccountName))];
      i := i + 1;
    }
  }
}
