/**
 * What the three directory clients have in common: the record they return
 * for a person (`Navn`, `E-mail`, `Afdeling`, `Brugernavn`), the error for
 * a search without any parameter, and the `'-'` placeholder for a missing
 * value.
 */
module Directory {
  import opened Wrappers

  /** `{"Navn": …, "E-mail": …, "Afdeling": …, "Brugernavn": …}` */
  datatype Record = Record(name: string, email: string, department: string, username: string)

  /** `ValueError("At least one search parameter … must be provided.")` */
  datatype SearchError = NoSearchParameter

  /** Python truthiness of an optional string argument: given and not empty. */
  predicate Truthy(s: Option<string>) {
    s.Some? && s.value != []
  }

  /** `value if value is not None else '-'` */
  function OrDash(s: Option<string>): (r: string)
    ensures s.Some? ==> r == s.value
    ensures s.None? ==> r == "-"
  {
    if s.Some? then s.value else "-"
  }
}
