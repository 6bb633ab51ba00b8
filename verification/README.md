# meddb in Dafny

meddb is a municipal administration app for committees ("udvalg"), the persons sitting
in them, their roles and their unions. It has:
- a relational data layer;
- Streamlit pages that show the committee hierarchy as a tree and let an administrator
  pick one committee, list its members and add, move, rename or delete entries;
- nightly jobs that reconcile members' e-mail addresses against three directories
  (Delta, the school directory and Microsoft Graph);
- a small HTTP client with an OAuth token cache;
- two pages that draw the hierarchy as a diagram.

This project models that core in Dafny and proves what each part promises.
- **Entities.** `Models` holds the entities of `src/models.py` as datatypes, together
  with the keys and constraints a database state keeps.
  - `Store` is the data layer `MeddbData` of `src/meddb_data.py`. It is a class over
    maps of committees, types, persons, roles and unions and a set of membership
    triples.
  - Each mutator is specified by a function on the tables. Lemmas prove that it keeps
    the constraints, changes nothing else and is idempotent where the code is.
  - `Queries` holds the read-only queries. Among them is the descendant closure behind
    `get_persons_by_roles_and_top_committees`.
- **Parent pointers.** `Hierarchy` treats the committee rows as parent pointers.
  - It defines the ancestor walk the pages perform and acyclicity.
  - It proves that the walk ends exactly when no cycle is reached.
- **Trees.** `CommitteeTree` covers the three tree builders: `get_committee_tree`,
  the row-dict builder with `sort_nested_list_of_dicts` of `src/Forside.py`, and the
  HOVEDUDVALG-rooted builder of `src/streamlit_app.py`. It also covers flattening and
  the label search.
  - The loops that fill the node index and the children lists are methods.
  - They are proved against a reference unfolding of the rows.
  - The sort is proved to put branches before leaves and then order by label, and to
    permute each sibling list.
- **Sorting.** `Sorting` is the stable sort by key that Python's `sorted` provides.
  `Roster` orders a committee's members by priority role, role and name with it.
- **Selection.** `Selection` is the single-selection rule the three apps apply to a
  tree widget's report. The state is the checked and expanded ids. Each variant is
  proved to keep at most one committee checked.
- **Front page.** `Legacy` and `FrontPage` hold the front page's flows on the legacy
  tables `udvalg`, `person` and `personrolle`:
  - add and remove a member;
  - create, rename, move, retype and delete a committee.
- **Directory clients.** `Directory`, `Delta`, `SchoolDirectory` and `Graph` model how
  the clients build queries and map results. The directories' answers are inputs.
- **Nightly jobs.** `Reconciliation` holds the jobs of `src/jobs_for_airflow.py`:
  - the per-person `clean` loop, whose directory lookups are oracles;
  - `fix_names`;
  - `delete_udvalg_without_parent`.
- **HTTP client.** `ApiRequests` is the client of `src/utils/api_requests.py`: URL
  joining, method choice, header merge, and the `APIClient` class with its token
  cache. The clock is an integer.
- **Diagram pages.** `Structure` and `StructureDraft` are `src/pages/Struktur.py` and
  its earlier draft `src/unused_pages/Struktur.py`: the depth-bounded diagram filter,
  edges, leaf marking, level counts, AMG collapsing and group prefixes.
- **Helpers.** `Wrappers` and `Text` hold shared helpers: Option and Result, lower
  case, strip, substring and number formatting.

Where the code and the documented behaviour disagree, the model follows the code.
The operations model the code as written, the four defects under "## Findings"
included. Each corrected definition sits beside them with its intended property
proved.
`create_committee_member` adds the membership row and commits. A duplicate triple
therefore violates the composite primary key and raises. It is not the silent no-op
it is described as, and the model reports it as an error. The front page's own SQL
insert (`ON CONFLICT DO NOTHING`) is the idempotent one.

## Model

| member | source | states |
|---|---|---|
| Models.DefaultCommitteeType | src/models.py:12-18 | a committee type created with only a name is not protected (`is_protected` defaults to False) |
| Models.DefaultPerson | src/models.py:50-63 | a person created with only a name and an email is not found in the system and has no union, user name or organisation |
| Directory.OrDash | src/ms_graph.py:24-27 | a present value is kept as it is; a missing one becomes the `'-'` placeholder |
| Graph.FilterExpression | src/ms_graph.py:13 | the `$filter` is `proxyAddresses/any(p:p eq 'smtp:` + alias + `')`: it starts with the prefix, ends with the suffix and has no other characters |
| Graph.FilterNamesAlias | src/ms_graph.py:13 | cutting the prefix and suffix off the filter gives back exactly the alias, whatever characters it holds |
| Graph.SearchAlias | src/ms_graph.py:12-30 | sends the filter for the alias and returns exactly one record per user of the response's `value` list, in order, each field taken from the user or `'-'` when missing; an absent `value` gives no records |
| SchoolDirectory.Clauses | src/school_data.py:34-45 | one lower-cased clause per truthy parameter (user name equality, name LIKE `%name%`, e-mail equality) and nothing else; no clause at all exactly when no parameter is truthy |
| SchoolDirectory.Matching | src/school_data.py:46-52 | the selected rows are exactly the table rows for which at least one clause holds (the clauses are joined with OR), in table order |
| SchoolDirectory.MapRowAsWritten | src/school_data.py:54-62 | the record carries the row's `Navn` and `email`; `Brugernavn` and `Skole` are taken from the row, and read as `""` when the row has no such key |
| SchoolDirectory.AsWrittenDropsUsername | src/school_data.py:47-62 | as written, a row's record carries its name, e-mail and school but always the default user name `""`, because PostgreSQL folds the unquoted alias `Brugernavn` to `brugernavn`; a row with `DQnummer` `dq1234` loses it |
| SchoolDirectory.MapRowKeepsColumns | src/school_data.py:54-62 | the corrected mapping gives back every column of the row: user name, name, e-mail and school |
| SchoolDirectory.SearchPerson | src/school_data.py:28-65 | fails exactly when no parameter is truthy; otherwise returns at most 10 records, one per selected row in order, each carrying that row's name, e-mail and school, and the user name `""` the folded alias leaves |
| Delta.SearchCriteria | src/delta.py:116-157 | exactly one criterion per truthy parameter and no other: a name `LIKE %name%` first when the name is truthy, an e-mail `LIKE %email%` exactly when the e-mail is truthy, a user name `EQUAL` last when the user name is truthy; none at all exactly when all three are falsy |
| Delta.EmailAfter | src/delta.py:182-184 | the e-mail after the attribute loop is the value of some e-mail attribute, or the one before when the engagement has no e-mail attribute |
| Delta.DepartmentAfter | src/delta.py:190-192 | the department after the relation loop is the name of some administrative unit, or the one before when there is none |
| Delta.ParseInstances | src/delta.py:169-207 | the nested loops return exactly the records of the reference reading `ParseAll`: per instance, e-mail and department start afresh, only active engagements set them (the last one wins), the user name carries over between instances, and an instance without e-mail or department is skipped |
| Delta.Search | src/delta.py:111-209 | sends no request and fails exactly when no parameter is truthy; a response without a first query result gives no records; otherwise the records parsed from the first result, the user name argument being where the shared loop variable starts |
| Delta.CheckEmailExists | src/delta.py:211-215 | an empty address fails like a search without parameters; otherwise true exactly when the `LIKE` search on the e-mail finds at least one record |
| Delta.ParsedRecordsHaveContact | src/delta.py:197-206 | every returned record has a non-empty e-mail and department (the `'-'` placeholder never reaches them), and there are no more records than instances |
| Delta.UsernameInherited | src/delta.py:177-195 | relations other than the user relation leave the user name as it was |
| Delta.OnlyActiveEngagementsCount | src/delta.py:178-192 | engagements not in state `STATE_ACTIVE` never set the e-mail or the department |
| Delta.UsernameLeaksToNextInstance | src/delta.py:193-205 | an instance without a user relation, following one that had a user name, is reported under the earlier instance's user name |
| Reconciliation.DeltaHitsHaveContact | src/jobs_for_airflow.py:65-68 | every Delta hit the job reads has a non-empty `E-mail` and `Afdeling` |
| Reconciliation.GraphEmailAsWritten | src/jobs_for_airflow.py:104-117 | as written, nothing unless the Graph search finds exactly one user; that user's `mail` when it is non-empty and differs from the address, and `'-'` when the user has no `mail` |
| Reconciliation.GraphPlaceholderBecomesEmail | src/jobs_for_airflow.py:105-117 | as written, a single Graph user without `mail` yields the record e-mail `'-'`, which becomes the person's new address |
| Reconciliation.GraphEmail | src/jobs_for_airflow.py:105-117 | the corrected Graph branch proposes an address only for exactly one user, and only that user's own non-empty `mail` differing from the old address |
| Reconciliation.GraphEmailAgrees | src/jobs_for_airflow.py:105-117 | the corrected and the as-written Graph branch agree whenever every user has a `mail` |
| Reconciliation.Decide | src/jobs_for_airflow.py:59-138 | the decision for one row stops the run exactly when the address is empty (the Delta search raises), and any new address it sets is non-empty, differs from the old one and marks the person as found |
| Reconciliation.NewEmailFromDirectory | src/jobs_for_airflow.py:64-117 | a new address comes either from Delta's single hit (malformed address) or from the record of Graph's single user (well-formed address unknown to Delta): that user's `mail`, or `'-'` when it has none |
| Reconciliation.DecideStoresPlaceholder | src/jobs_for_airflow.py:88-117 | a well-formed address unknown to Delta and the school directory whose Graph search finds one user without `mail` is replaced by `'-'` and marked as found |
| Reconciliation.DecideBySchool | src/jobs_for_airflow.py:88-103 | a well-formed address Delta does not know but the school directory finds by lower-cased address is marked found, keeps its address and takes the school, possibly NULL, as its area |
| Reconciliation.DecideByGraph | src/jobs_for_airflow.py:104-117 | a well-formed address neither Delta nor the school directory knows changes nothing unless Graph finds exactly one user; one user with a non-empty `mail` other than the address sets that address and marks the person found, and one whose `mail` is the address changes nothing |
| Reconciliation.DecideByDelta | src/jobs_for_airflow.py:64-138 | a malformed address changes nothing unless Delta finds exactly one person; with one hit, the hit's address replaces it when different and only then sets `isystem`, and the hit's department becomes the area exactly when it is non-empty and differs from the old area; a well-formed address Delta knows is always marked found, keeps its address, and gets a new area exactly when there is a single hit, that hit's department |
| Reconciliation.Apply | src/jobs_for_airflow.py:81-136 | `UPDATE … WHERE email = :e` changes only rows with that address, keeps every row's name, user name and union, adds and removes no row, and never clears `isystem` |
| Reconciliation.StoppedStays | src/jobs_for_airflow.py:59-65 | once a search has raised, the rows after it change nothing |
| Reconciliation.CleanKeepsFound | src/jobs_for_airflow.py:35-140 | the whole run adds and removes no person, never touches names, user names or unions, and never sets `isystem` back to FALSE |
| Reconciliation.Clean | src/jobs_for_airflow.py:53-59 | reads the snapshot of the persons with an address, in query order, and ends in the state `CleanAfter` gives for it, the job's own decisions included |
| Reconciliation.CleanRows | src/jobs_for_airflow.py:59-140 | the per-person loop, one decision and one committed update per row until a search raises, ends in exactly the state and stop flag of the reference `CleanAfter` |
| Reconciliation.FixName | src/jobs_for_airflow.py:154-162 | a name with `@` becomes its part before the first `@` with every `.` made a space, so it is shorter and holds neither character; any other name is unchanged |
| Reconciliation.FixNameIdempotent | src/jobs_for_airflow.py:154-162 | a repaired name is left alone by the next run |
| Reconciliation.FixNames | src/jobs_for_airflow.py:154-162 | every person keeps its row except for the repaired name, and afterwards no name contains `@` |
| Reconciliation.FixNamesIdempotent | src/jobs_for_airflow.py:154-162 | running `fix_names` twice is the same as running it once |
| Reconciliation.DeleteWithoutParent | src/jobs_for_airflow.py:143-151 | a committee stays exactly when it has a parent or is named `HOVEDUDVALG`; the rows that stay are unchanged, and every remaining top-level committee is `HOVEDUDVALG` |
| Reconciliation.DeleteWithoutParentIdempotent | src/jobs_for_airflow.py:143-151 | a second run deletes nothing more |
| ApiRequests.TokenFormAsWritten | src/utils/api_requests.py:116-132 | as written, the form carries the client credentials and the `password` grant with user name and password when both are set, otherwise the `client_credentials` grant; the refresh token is in the form exactly when one is used |
| ApiRequests.RefreshGrantNeverSent | src/utils/api_requests.py:124-132 | as written, the form always carries a `grant_type` other than `refresh_token`, even when a refresh token is put in the form |
| ApiRequests.TokenForm | src/utils/api_requests.py:116-132 | the corrected form always carries the client id and secret, and exactly one grant: `refresh_token` with the token when refreshing (RFC 6749 section 6), else `password` with user name and password when both are set (section 4.3), else `client_credentials` (section 4.4) |
| ApiRequests.TokenFormAgreesWithoutRefresh | src/utils/api_requests.py:124-132 | without a refresh token the corrected and the as-written form are the same |
| ApiRequests.Receive | src/utils/api_requests.py:136-146 | a failed response or one without `access_token` leaves the cache as it was; otherwise the access token is stored even if a later field is missing; all goes through exactly when `expires_in` is present and, with a refresh token, `refresh_expires_in` too, and then the expiries are the request time plus those durations |
| ApiRequests.TokenAuthentication | src/utils/api_requests.py:90-148 | a valid cached token is sent as a bearer token with no request; otherwise one request goes to the token URL, the response is taken in by `Receive`, and the result is the bearer header when that went through and `{}` otherwise |
| ApiRequests.Authentication | src/utils/api_requests.py:77-157 | an API key is sent raw or as `Bearer <key>` with no token request; a valid cached token is reused with no request; client credentials without realm or tenant give `{}`; user name and password alone give `Basic` of the encoded `user:pass` (RFC 7617 section 2), no credentials `{}`; a token request carries the client credentials and the `password` grant when user name and password are set, `client_credentials` otherwise, never `refresh_token`, though the refresh token rides along when the cache allows a refresh; a newly fetched token is sent as a bearer token and expires `expires_in` after the time taken before the request |
| ApiRequests.FetchedTokenReused | src/utils/api_requests.py:92-148 | a token fetched at `now` with a positive lifetime is reused, with no new request, by every call before `now + expires_in` |
| ApiRequests.TrimRight | src/utils/api_requests.py:173 | `rstrip('/')` removes exactly the trailing run of slashes: the result is a prefix that does not end in one, and everything cut off is a slash |
| ApiRequests.TrimLeft | src/utils/api_requests.py:173 | `lstrip('/')` removes exactly the leading run of slashes |
| ApiRequests.JoinUrl | src/utils/api_requests.py:172-173 | the URL is the base without trailing slashes, one slash, and the path without leading slashes, so the join holds exactly one slash |
| ApiRequests.JoinUrlSlashes | src/utils/api_requests.py:172-173 | base and path are joined by exactly one slash: extra slashes at the end of the base or the start of the path make no difference |
| ApiRequests.MethodFor | src/utils/api_requests.py:184-191 | GET when none of method, json, data or files is given, the named method (lower-cased) when one is given, POST otherwise |
| ApiRequests.MergeHeaders | src/utils/api_requests.py:180-194 | every Authorization header wins over a caller header of the same name, other caller headers are kept, a JSON body forces `Content-Type: application/json`, and no other key appears |
| ApiRequests.ApiClient.constructor | src/utils/api_requests.py:54-72 | a new client keeps its settings and has an empty token cache |
| ApiRequests.ApiClient.Store | src/utils/api_requests.py:139-146 | the token fields are stored one after the other as `Receive` says, so a response lacking `expires_in` or `refresh_expires_in` leaves the fields before it stored and reports failure |
| ApiRequests.ApiClient.TokenHeaders | src/utils/api_requests.py:90-148 | the OAuth branch, with the form as the client builds it, leaves the headers, the new cache and the request sent exactly as `TokenAuthentication` of the old cache |
| ApiRequests.ApiClient.Authenticate | src/utils/api_requests.py:77-157 | the headers, the new cache and the request sent are exactly those of `Authentication` on the old cache |
| ApiRequests.ApiClient.MakeRequest | src/utils/api_requests.py:159-194 | a path that is not a string fails, `path=None` fails, headers that are not a dict fail, each without touching the cache; otherwise the URL is the joined URL (or the base URL without a path), the method is `MethodFor`, the headers are the merge with the authentication headers, and the cache is the one `Authentication` leaves |
| Queries.CommitteeTypes | src/meddb_data.py:56-61 | a type is listed exactly when protected types are asked for or the type is not protected |
| Queries.PersonsNotInSystem | src/meddb_data.py:75-86 | exactly the persons whose `found_in_system` is not True |
| Queries.DescendantsHaveTops | src/meddb_data.py:127-131 | the recursive CTE's anchor: every existing top committee is in the closure |
| Queries.DescendantsClosedUnderChildren | src/meddb_data.py:133-136 | the recursive step: a child of a committee in the closure is in it |
| Queries.DescendantsAreReached | src/meddb_data.py:127-136 | nothing else is in the closure: every member is a top or the child of a member |
| Queries.PersonsByRolesAndTopCommittees | src/meddb_data.py:100-144 | the result holds only existing persons that hold a membership, each once (`distinct`); only a query with top committees needs acyclic parent pointers, for its recursive `UNION ALL` |
| Queries.NoFiltersNoConstraint | src/meddb_data.py:112-126 | with every filter empty or None the query returns exactly the persons holding a membership, whatever the parent pointers |
| Queries.PersonsByRolesMembership | src/meddb_data.py:109-142 | a person is returned exactly when one membership row passes every filter at once: `in_system`, the union filter (a None in `union_ids` admits persons without a union), the role and the descendant closure, on the same row |
| Store.Upsert | src/meddb_data.py:252-277 | fails exactly when the union does not exist; otherwise only persons change, the returned key holds a person with the address, name and found flag given, and it is `newId` when no person had the address and an existing key otherwise |
| Store.UpsertExistingShape | src/meddb_data.py:255-264 | with unique e-mails, upserting an existing address rewrites exactly that person's record and returns its key |
| Store.UpsertExisting | src/meddb_data.py:255-264 | an existing address: `name` and `found_in_system` are overwritten, `organization`, `username` and `union_id` are kept when the argument is None and replaced otherwise, the e-mail and every other person and table stay |
| Store.UpsertNew | src/meddb_data.py:265-277 | a new address inserts one person under the new key with exactly the given fields, and nothing else |
| Store.PersonWriteConsistent | src/models.py:57-63 | writing a person whose union exists and whose e-mail no other person has keeps every key and constraint |
| Store.UpsertConsistent | src/meddb_data.py:252-277 | a successful upsert keeps every constraint and leaves exactly one person with the address: it never creates a second one |
| Store.UpsertKeepsValid | src/meddb_data.py:252-277 | the upsert fails, with an integrity error, exactly when the union does not exist; otherwise the tables stay consistent and only an insert uses up the next key |
| Store.UpsertIdempotent | src/meddb_data.py:252-277 | repeating the upsert with the same arguments changes nothing more and returns the same key |
| Store.UpsertStored | src/meddb_data.py:255-277 | the stored record is a fixed point of the update with the same arguments, and the unions are untouched |
| Store.UpdateCommitteeSpec | src/meddb_data.py:280-296 | fails exactly when the committee is missing or a given type or parent does not exist; otherwise only that committee's record changes |
| Store.UpdateCommitteeFields | src/meddb_data.py:280-296 | on success the committee exists, `name` and `type_id` change only when given, the parent is kept under the `False` sentinel and becomes None when None is passed, and no other row or table changes |
| Store.UpdateCommitteeMissing | src/meddb_data.py:283-285 | a missing id is refused with "not found" |
| Store.UpdateCommitteeConsistent | src/meddb_data.py:280-296 | a successful update keeps every key and constraint |
| Store.UpdateCommitteeKeepsAcyclic | src/meddb_data.py:291-292 | the committee tree stays acyclic when the new parent is neither the committee nor one of its descendants |
| Store.UpdateCommitteeSelfParent | src/meddb_data.py:291-292 | `update_committee` checks no ancestry: making a committee its own parent succeeds and no ancestor walk from it ever ends |
| Store.DeleteMemberSpec | src/meddb_data.py:360-380 | fails exactly when the triple is absent; otherwise exactly that triple goes, and no person but that one may go |
| Store.DeleteMemberEffect | src/meddb_data.py:360-380 | fails exactly when the exact triple is absent; otherwise removes only that triple, removes the person exactly when no membership of theirs remains, and keeps every other person and table |
| Store.DeleteMemberConsistent | src/meddb_data.py:360-380 | deleting a membership keeps every key and constraint |
| Store.DeleteCommitteeEffect | src/meddb_data.py:382-403 | fails exactly on a missing id; otherwise the committee is gone, no membership refers to it, the other memberships stay, its former children are top level, other committees are unchanged, a person stays exactly when a membership of theirs remains (earlier orphans go too), and types, unions and roles are untouched |
| Store.DeleteCommitteeConsistent | src/meddb_data.py:382-403 | deleting a committee keeps every key and constraint |
| Store.DeleteCommitteeKeepsAcyclic | src/meddb_data.py:400-402 | deleting a committee keeps the committee tree acyclic |
| Store.TypeNamesInsert | src/meddb_data.py:49-53 | adding a type under a fresh key adds exactly its name to the type names |
| Store.TypeWriteConsistent | src/models.py:17 | writing a type whose name no other type has keeps every constraint |
| Store.MeddbData.constructor | src/meddb_data.py:18-32 | a new store is valid and holds exactly the seeded types: each of `Udvalg`, `Arbejdsmiljøgruppe` and `Ukendt` names a type, every type is protected and one of these, and no other table has a row |
| Store.MeddbData.SeedDb | src/meddb_data.py:34-53 | afterwards each of `Udvalg`, `Arbejdsmiljøgruppe` and `Ukendt` names a type, existing types are left exactly as they were, every added type is protected and carries a seed name that was missing, and no other table changes |
| Store.MeddbData.InsertType | src/meddb_data.py:49-53 | a type with a new name is stored under the next key, keeping the store valid and adding its name to the type names |
| Store.MeddbData.CreateRole | src/meddb_data.py:207-213 | refused, with nothing stored, exactly when the name is taken; otherwise one role is added under a fresh key |
| Store.MeddbData.CreateCommitteeType | src/meddb_data.py:215-221 | refused exactly when the name is taken; otherwise one unprotected type is added under a fresh key |
| Store.MeddbData.CreateUnion | src/meddb_data.py:223-229 | refused exactly when the name is taken; otherwise one union is added under a fresh key |
| Store.MeddbData.CreateCommittee | src/meddb_data.py:231-237 | refused exactly when the type or the given parent does not exist; otherwise one committee is added under a fresh key |
| Store.MeddbData.CreateCommitteeMember | src/meddb_data.py:239-250 | refused exactly when the triple already exists or its person, role or committee is missing; otherwise exactly that triple is added |
| Store.MeddbData.FindByEmail | src/meddb_data.py:255-256 | finds a person exactly when some person has the address, and the one found has it |
| Store.MeddbData.AssignFields | src/meddb_data.py:257-261 | the field-by-field assignments give the record `UpdatedPerson` describes, with the e-mail untouched |
| Store.MeddbData.AddOrUpdatePerson | src/meddb_data.py:252-277 | keeps the store valid, and the result and the new tables are exactly those of `Upsert` on the old tables |
| Store.MeddbData.UpdateCommittee | src/meddb_data.py:280-296 | keeps the store valid, and the result and the new tables are exactly those of `UpdateCommitteeSpec` |
| Store.MeddbData.UpdateCommitteeType | src/meddb_data.py:298-307 | succeeds exactly when the type exists and no other type has the name; a missing id is refused as not found, a taken name as an integrity error, each changing nothing; on success only that type's name changes |
| Store.MeddbData.UpdateRole | src/meddb_data.py:309-318 | succeeds exactly when the role exists and no other role has the name; a missing id or a taken name is refused with nothing changed; on success only that role's name changes |
| Store.MeddbData.UpdateUnion | src/meddb_data.py:320-330 | succeeds exactly when the union exists and no other union has the name; a missing id or a taken name is refused with nothing changed; on success only that union's name and description change |
| Store.MeddbData.DeleteCommitteeType | src/meddb_data.py:333-340 | succeeds exactly when the type exists and no committee uses it; a missing or used type is refused with nothing changed; on success only that type goes |
| Store.MeddbData.DeleteRole | src/meddb_data.py:342-349 | succeeds exactly when the role exists and no membership uses it; a missing or used role is refused with nothing changed; on success only that role goes |
| Store.MeddbData.DeleteUnion | src/meddb_data.py:351-358 | fails exactly on a missing union; otherwise the union goes, its members' `union_id` becomes None, and nothing else changes |
| Store.MeddbData.DeleteCommitteeMember | src/meddb_data.py:360-380 | keeps the store valid, and the result and the new tables are exactly those of `DeleteMemberSpec` |
| Store.MeddbData.DeleteCommittee | src/meddb_data.py:382-403 | keeps the store valid, and the result and the new tables are exactly those of `DeleteCommitteeSpec` |
| FrontPage.AddMemberSpec | src/Forside.py:279-341 | the key returned is the found person's, or the new key; that person carries the address (a new one) or keeps theirs; exactly the one role triple is added to the role holders; committees are untouched |
| FrontPage.AddMemberPersons | src/Forside.py:281-330 | a found person changes only in union and found flag, and only when a union is chosen that differs from theirs; otherwise exactly one new person, marked as found, with the candidate's name, address, user name and chosen union, is inserted under a fresh key; nobody else changes |
| FrontPage.AddMemberIdempotent | src/Forside.py:279-341 | adding the same member again finds the same person, changes no person and hits the existing role row (`ON CONFLICT DO NOTHING`), so the tables stay the same |
| FrontPage.AddMemberKeepsFound | src/Forside.py:287-330 | adding a member never clears anyone's found flag |
| FrontPage.RemoveMemberSpec | src/Forside.py:555-579 | fails exactly when several persons share the address; otherwise it only deletes: committees stay, and no role or person is added |
| FrontPage.RemoveMemberEffect | src/Forside.py:555-579 | fails, committing nothing, exactly when several persons share the address; otherwise every role of that person in the committee goes whatever the role, all other roles stay, the person stays exactly when they still hold a role somewhere, and nobody else and no committee changes |
| FrontPage.RemoveUnknownMember | src/Forside.py:558-578 | with no person at the address the subquery is NULL and nothing changes |
| FrontPage.DeleteCommitteeSpec | src/Forside.py:475-501 | the committee key set loses exactly the deleted id |
| FrontPage.DeleteCommitteeEffect | src/Forside.py:475-501 | the committee and exactly its role rows go, its children become top level, every other committee is unchanged, and a person stays exactly when they still hold a role, unchanged |
| FrontPage.DeleteMissingCommittee | src/Forside.py:492-500 | deleting an id that is not there still deletes every person who holds no role, and nothing else |
| FrontPage.DeleteCommitteeKeepsAcyclic | src/Forside.py:482-491 | deleting a committee keeps the committee tree acyclic |
| FrontPage.CreateDecision | src/Forside.py:656-670 | the create form accepts exactly a non-empty stripped name that no committee has when both are lower-cased, and stores the stripped name |
| FrontPage.CreateKeepsNamesDistinct | src/Forside.py:660-683 | creating committees through the form keeps committee names distinct ignoring case |
| FrontPage.RenameDecision | src/Forside.py:411-425 | the rename form accepts exactly a stripped name that is non-empty and differs from the current one, and stores the stripped name |
| FrontPage.RenameTwice | src/Forside.py:411-415 | submitting the same rename a second time is refused as unchanged |
| FrontPage.TypeChangeDecision | src/Forside.py:434-454 | the type form goes through exactly when the current type is one of the offered types and the chosen one differs; a NULL or other type makes `type_options.index` fail |
| FrontPage.MoveOptions | src/Forside.py:359-363 | the offered parents are committees other than the moved one; committee 1 gets none |
| FrontPage.Moved | src/Forside.py:390-397 | after the move, the parent pointers differ from before only at the moved committee |
| FrontPage.MoveAsWritten | src/Forside.py:385-397 | accepts exactly when the committee has a parent now and a new parent is chosen, and then sets that parent, whatever it is |
| FrontPage.MoveAsWrittenCreatesCycle | src/Forside.py:385-397 | with committees 1 > 2 > 3, moving 2 under 3 passes the form and leaves the committee tree cyclic |
| FrontPage.MoveChecked | src/Forside.py:385-397 | the corrected move accepts only what the written form accepts, and refuses exactly a new parent whose ancestor chain contains the committee |
| FrontPage.MoveCheckedKeepsAcyclic | src/Forside.py:385-397 | a move the corrected form accepts keeps the committee tree acyclic |
| FrontPage.MoveCheckedExact | src/Forside.py:385-397 | of the moves the written form accepts, the corrected form refuses exactly those that would make the tree cyclic |
| FrontPage.SearchRows | src/Forside.py:591-592 | a row is listed exactly when the lower-cased query occurs in its lower-cased name |
| FrontPage.LegacyDb.constructor | src/Forside.py:24-33 | the object holds the given tables and key counter |
| FrontPage.LegacyDb.AddMember | src/Forside.py:279-341 | the statements reach exactly the tables and key `AddMemberSpec` describes |
| FrontPage.LegacyDb.RemoveMember | src/Forside.py:555-579 | commits `RemoveMemberSpec`'s tables exactly when it succeeds, and otherwise leaves the tables as they were |
| FrontPage.LegacyDb.DeleteCommittee | src/Forside.py:475-501 | the four statements reach exactly `DeleteCommitteeSpec`'s tables |
| FrontPage.LegacyDb.CreateCommittee | src/Forside.py:656-683 | inserts exactly when `CreateDecision` accepts, under the next key with the stripped name and chosen parent; otherwise nothing changes |
| FrontPage.LegacyDb.RenameCommittee | src/Forside.py:411-427 | changes only the committee's name, exactly when `RenameDecision` accepts |
| FrontPage.LegacyDb.ChangeType | src/Forside.py:440-456 | changes only the committee's type, exactly when `TypeChangeDecision` accepts |
| FrontPage.LegacyDb.MoveCommittee | src/Forside.py:385-399 | writes exactly the moves `MoveAsWritten` accepts, a move under the committee's own descendant included, changing only that committee's parent |
| FrontPage.LegacyDb.MoveCommitteeChecked | src/Forside.py:385-399 | the corrected move: writes exactly the moves `MoveChecked` accepts, and the committee tree stays acyclic |
| Hierarchy.WalkMoreFuel | src/main.py:102-104 | a finished ancestor walk gives the same path whatever further steps are allowed |
| Hierarchy.WalkTerminates | src/main.py:102-104 | with acyclic parent pointers the walk from any id, known or not, ends |
| Hierarchy.Chain | src/main.py:341-346 | the expanded path starts at the committee itself |
| Hierarchy.WalkShape | src/main.py:102-104 | a finished walk is an ancestor path: each next entry is the previous one's parent and the last has none |
| Hierarchy.AncestorPathIsWalk | src/main.py:102-104 | every ancestor path is what the walk produces |
| Hierarchy.ChainCharacterization | src/main.py:341-346 | the walk's result is the one and only ancestor path of the committee |
| Hierarchy.ChainStep | src/main.py:344-346 | the path of a top-level committee is the committee alone; otherwise it is the committee followed by its parent's path |
| Hierarchy.AncestorPathDistinct | src/main.py:102-104 | an ancestor path never visits a committee twice |
| Hierarchy.AncestorPathBounded | src/main.py:102-104 | an ancestor path is at most one longer than the number of committees |
| Hierarchy.AncestorPathTerminates | src/main.py:102-104 | whoever has an ancestor path finishes the walk, with exactly that path |
| Hierarchy.ReparentPreservesAcyclic | src/meddb_data.py:291-292 | giving a committee a new parent that is neither itself nor a descendant, or no parent, keeps the parent pointers acyclic |
| Hierarchy.DetachPreservesAcyclic | src/meddb_data.py:398-402 | removing a committee and making its children top level keeps the parent pointers acyclic |
| Hierarchy.ReparentIntoChainCycles | src/Forside.py:390-397 | giving a committee a new parent whose ancestor path contains it makes the parent pointers cyclic |
| Hierarchy.TwoCycleNeverEnds | src/Forside.py:138-141 | two committees that are each other's parent never finish the walk |
| Hierarchy.CycleNeverEnds | src/Forside.py:138-141 | no committee on a cycle of parent pointers finishes the walk |
| Hierarchy.SelfLoopNeverEnds | src/main.py:102-104 | a committee that is its own parent never finishes the walk |
| Hierarchy.ScanParent | src/Forside.py:140 | a parent found by the scan is the one recorded by some row with that id |
| Hierarchy.ScanIsLookup | src/streamlit_app.py:167-169 | scanning the rows for the first with the id gives the same parent as looking the id up in the rows' parent map |
| Selection.Without | src/main.py:94-97 | keeps exactly the reported ids that are not already checked, never more than were reported |
| Selection.Next | src/main.py:81-119 | a session with at most one checked id keeps at most one; with no id remaining an empty report clears where the page does and the session otherwise stays; a single remaining id is selected with its ancestor path expanded; two remaining ids select the later one and more than two clear the selection with a warning, both keeping the expanded path; the page reruns exactly when one new id or two or more ids remain |
| Selection.EmptyReport | src/main.py:89-91 | an empty report clears both lists on the main page and the front page, leaves the first app's session as it was, and reruns neither |
| Selection.SecondCheckMovesSelection | src/main.py:93-114 | checking a second committee next to the selected one, in either report order, moves the selection to it and expands its ancestors |
| Selection.TwoNewKeepsLast | src/main.py:112-114 | two newly checked committees keep the later one and leave the expanded path as it was |
| Selection.OwnReportSettles | src/main.py:99-110 | after a rerun the component reports the session's own selection, which is kept, causes no further rerun and leaves the session settled |
| Selection.SettledIsFixpoint | src/main.py:81-119 | a settled session is left exactly as it is by its own report |
| Selection.ExpandPath | src/main.py:100-106 | the expanded list is the committee's ancestor path, up to the first id without a known parent |
| Selection.ExpandPathByScan | src/Forside.py:136-143 | the walk that scans the rows for the parent gives the ancestor path of the rows' parent map |
| Selection.Session.constructor | src/Forside.py:35-39 | a new session has nothing checked and nothing expanded |
| Selection.Session.Report | src/main.py:81-119 | the session, rerun and warning after the main page's code are exactly those of `Next` with clearing on an empty report |
| Selection.Session.ReportByScan | src/streamlit_app.py:158-188 | the session, rerun and warning after the front page's or the first app's code are exactly those of `Next` |
| Selection.Session.SearchSelect | src/main.py:337-348 | choosing a search hit checks only it, expands its ancestor path, and leaves the session settled |
| Roster.Priority | src/Forside.py:528-531 | a listed role gets the position of its first occurrence, an unlisted one the length of the list, and only unlisted ones get that |
| Roster.MemberLeTotalPreorder | src/Forside.py:533-536 | comparing members by (priority, role, name) is a total preorder |
| Roster.SortMembers | src/Forside.py:533-536 | the table holds the same members, ordered by (priority, role, name) |
| Roster.ListedRolesFirst | src/main.py:282-288 | every member with a priority role comes before every member without one |
| Roster.ChairFirst | src/streamlit_app.py:217-219 | a committee with a chair (`Formand`) lists a chair first |
| Roster.SortMembersOfSorted | src/main.py:285-288 | a member list already in table order is shown as it is |
| Roster.MailRecipients | src/main.py:274 | the mail link holds exactly the non-empty addresses of the members, no more addresses than members |
| Roster.MailRecipientsAppend | src/main.py:274 | the addresses follow the members' order and keep repeats: the addresses of two lists joined are the two lists of addresses joined |
| Sorting.Insert | src/meddb_data.py:184 | inserting adds exactly the one element |
| Sorting.SortBy | src/meddb_data.py:184 | the sorted list is a permutation of the input |
| Sorting.InsertSorted | src/meddb_data.py:184 | inserting into a sorted list keeps it sorted |
| Sorting.SortBySorted | src/meddb_data.py:184 | the result is sorted by any total preorder |
| Sorting.SortByOfSorted | src/unused_pages/Struktur.py:43 | a list that is already sorted is left exactly as it is, as Python's stable sort does |
| Sorting.SortByIdempotent | src/unused_pages/Struktur.py:43 | sorting twice gives what sorting once gives |
| Text.LexLeTotal | src/Forside.py:533-536 | any two strings are ordered one way or the other |
| Text.LexLeTransitive | src/Forside.py:533-536 | the string order is transitive |
| Text.LexLeAntisymmetric | src/Forside.py:533-536 | two strings each at most the other are equal |
| Text.LowerChar | src/Forside.py:592 | capital ASCII letters become small letters and characters outside the capital ranges are unchanged |
| Text.Lower | src/Forside.py:592 | lower-casing keeps the length and lower-cases each character on its own |
| Text.StripLeft | src/pages/Struktur.py:36 | removes exactly the leading whitespace: what is left is a suffix starting with a non-space |
| Text.StripRight | src/pages/Struktur.py:36 | removes exactly the trailing whitespace: what is left is a prefix ending with a non-space |
| Text.Strip | src/Forside.py:412-425 | the stripped text is a piece of the input that neither starts nor ends with whitespace |
| Text.StripExact | src/Forside.py:412-425 | `strip()` removes exactly the leading and the trailing whitespace: the result is a slice of the input with only whitespace before and after it |
| Text.BeforeFirst | src/pages/Struktur.py:34-36 | the first part of `split(sep)` is the longest prefix without the separator, followed by the separator when there is one |
| Text.ReplaceChar | src/jobs_for_airflow.py:158 | every occurrence of the character is replaced and nothing else changes |
| Text.NatToString | src/unused_pages/Struktur.py:131 | the decimal text of a number is non-empty digits without a leading zero |
| Text.NatToStringRoundTrip | src/unused_pages/Struktur.py:131 | reading the decimal text back gives the number |
| CommitteeTree.IndexRows | src/meddb_data.py:165-171 | the node map and the parent map have one entry per committee, holding its own node and its own parent |
| CommitteeTree.LinkRows | src/meddb_data.py:173-180 | the roots are the root rows' ids in row order, each known committee's children list holds exactly the ids of the rows naming it as parent, in row order, and no list is created empty or for an unknown parent |
| CommitteeTree.LinkStep | src/meddb_data.py:174-180 | handling one more row keeps the children lists equal to those the rows so far describe |
| CommitteeTree.BuildIndex | src/Forside.py:77-87 | the index built by the two loops is exactly the one the rows describe: nodes, parents, roots and children lists |
| CommitteeTree.RootIdsExactly | src/meddb_data.py:174-176 | a committee is listed among the roots once if it is a root and not at all otherwise |
| CommitteeTree.ChildIdsExactly | src/meddb_data.py:177-180 | a committee is in a parent's children list once if that is its parent and not at all otherwise |
| CommitteeTree.DanglingDropped | src/meddb_data.py:178-180 | a committee whose parent id names no committee is neither a root nor anybody's child, so the tree does not show it |
| CommitteeTree.UnnamedTopDropped | src/streamlit_app.py:133-143 | in the first app a parentless committee not named `HOVEDUDVALG` is neither a root nor anybody's child |
| CommitteeTree.Tree | src/meddb_data.py:173-180 | one node per id, carrying that committee's id and label |
| CommitteeTree.NodeLeTotalPreorder | src/meddb_data.py:184 | the key (branch before leaf, then label) is a total preorder |
| CommitteeTree.SortTree | src/meddb_data.py:182-189 | sorting keeps the number of siblings |
| CommitteeTree.SortChildren | src/meddb_data.py:185-188 | each node keeps its place and gets its children sorted |
| CommitteeTree.SortTreeSorted | src/meddb_data.py:182-189 | after `sort_nodes` every sibling list, at every depth, is ordered by the key |
| CommitteeTree.SortTreeOfSorted | src/meddb_data.py:182-189 | a forest already sorted at every depth is left exactly as it is |
| CommitteeTree.SortTreeIdempotent | src/meddb_data.py:182-189 | sorting the tree twice is sorting it once |
| CommitteeTree.FlattenSize | src/main.py:323-329 | the pre-order listing has one entry per node of the forest |
| CommitteeTree.FlattenIds | src/main.py:323-331 | the listing shows exactly the forest's committee ids, each as often as it occurs |
| CommitteeTree.SortTreePermutes | src/meddb_data.py:182-189 | sorting only permutes: the same ids, as often as before, and as many nodes |
| CommitteeTree.SearchNodes | src/main.py:332 | a node is a search hit exactly when it is listed and its label contains the query, ignoring case |
| CommitteeTree.NestedSortList | src/Forside.py:92-100 | processing a list keeps its length and its number of nodes |
| CommitteeTree.NestedSortEach | src/Forside.py:93 | processing each element keeps the length and the number of nodes |
| CommitteeTree.NestedSortNode | src/Forside.py:101-105 | processing a node keeps its label, its id and the number of nodes below it |
| CommitteeTree.NestedSortIsSortTree | src/Forside.py:89-108 | the front page's `sort_nested_list_of_dicts` orders the forest exactly as `sort_nodes` does |
| CommitteeTree.NestedSortNodeIsSorted | src/Forside.py:101-105 | processing a node sorts the forest below it, the second pass over the children changing nothing |
| CommitteeTree.GetCommitteeTree | src/meddb_data.py:158-191 | one node and parent entry per committee; the tree is the forest under the parentless committees, sorted at every depth, with the same ids as unsorted; the returned node index carries each committee's id and label |
| CommitteeTree.FrontPageTree | src/Forside.py:76-108 | the front page's tree is the same forest sorted the same way as `get_committee_tree`'s, sorted at every depth |
| CommitteeTree.FirstAppTree | src/streamlit_app.py:126-143 | the first app's tree is the forest under the parentless `HOVEDUDVALG` rows, in row order and unsorted |
| CommitteeTree.TreeValues | src/meddb_data.py:173-180 | the top nodes of a forest carry the ids it was built from, in that order |
| Structure.GroupOf | src/pages/Struktur.py:32-37 | a name announces a group only when it holds a '-', and the group is non-empty text neither starting nor ending with whitespace |
| Structure.GroupsOf | src/pages/Struktur.py:29-39 | no listed group is empty |
| Structure.GroupsDistinct | src/pages/Struktur.py:37-38 | no group is listed twice |
| Structure.GroupsAnnounced | src/pages/Struktur.py:29-39 | a group is listed exactly when some row's name announces it |
| Structure.GetGroups | src/pages/Struktur.py:29-39 | the loop lists the groups in the order first announced, each once |
| Structure.GroupsKeepTheirPlace | src/pages/Struktur.py:29-39 | more rows never reorder the groups found so far; they can only add groups after them |
| Structure.AncestorIsChainEntry | src/pages/Struktur.py:74-83 | the committee k steps up is the k-th entry of the ancestor path, and there is none beyond its end |
| Structure.LevelBelow | src/pages/Struktur.py:70-84 | a level, when there is one, is at least 1 |
| Structure.LevelAtFirstMeeting | src/pages/Struktur.py:71-81 | when the walk from the parent first meets the top committee at position i of its path, the committee is at level i + 1 |
| Structure.LevelNoneOffChain | src/pages/Struktur.py:74-83 | a walk that never meets the top committee gives no level |
| Structure.LevelIsAncestorDistance | src/pages/Struktur.py:70-84 | the level is d exactly when the top committee is d - 1 parent steps above the committee's parent |
| Structure.DrawnIffWithinDepth | src/pages/Struktur.py:63-88 | a committee other than the top one is drawn exactly when it has a parent, a depth is given, and the top committee is at most `max_depth` - 1 steps above that parent |
| Structure.ShownRows | src/pages/Struktur.py:47-88 | never more drawn rows than rows |
| Structure.ShownRowsMember | src/pages/Struktur.py:47-88 | a row is drawn exactly when it is one of the rows and passes the test above |
| Structure.NodesOf | src/pages/Struktur.py:66-87 | one node per drawn row |
| Structure.NodesOfAt | src/pages/Struktur.py:63-87 | the k-th node is the k-th drawn row's, with its id and its text, and is an input node exactly for the top committee |
| Structure.EdgesOf | src/pages/Struktur.py:88 | never more edges than drawn rows |
| Structure.EdgesOfMember | src/pages/Struktur.py:88 | the edges are exactly those from the parent of a drawn committee, other than the top one, to that committee |
| Structure.OneEdgePerDrawnCommittee | src/pages/Struktur.py:63-88 | every drawn committee but the top one gets exactly one edge |
| Structure.Marked | src/pages/Struktur.py:90-93 | leaf marking keeps each node's id and text |
| Structure.MarkLeaves | src/pages/Struktur.py:91-93 | the loop over the node objects leaves exactly the marked nodes |
| Structure.MarkNodes | src/pages/Struktur.py:90-93 | the nodes are marked against the sources of the diagram's edges |
| Structure.DiagramKinds | src/pages/Struktur.py:63-95 | in a finished diagram the top committee is the input node, a committee that starts an edge is a plain node, and every other drawn committee is an output node |
| Structure.DescendantDepth | src/pages/Struktur.py:70-84 | the walk reports a descendant exactly when the committee has a level below the top, and then reports that level |
| Structure.FindRow | src/pages/Struktur.py:78 | no row is found exactly when no row carries the id; a found row carries it, is one of the rows and holds the parent the parent map records |
| Structure.IsDrawn | src/pages/Struktur.py:63-84 | the branches draw a row exactly when it passes the test of `Shown` |
| Structure.AnyNamedMeaning | src/pages/Struktur.py:51 | some row has a name exactly when some row's name is non-empty |
| Structure.UnstyledMeaning | src/pages/Struktur.py:51-64 | the style is missing exactly when some drawn row has an empty name and so do all rows before it |
| Structure.UnstyledPrefix | src/pages/Struktur.py:47-88 | a drawn row without a style among the first rows stays one when more rows follow |
| Structure.DrawNext | src/pages/Struktur.py:63-88 | one more row adds its node, and its edge unless it is the top committee, exactly when it is drawn |
| Structure.DrawRows | src/pages/Struktur.py:47-88 | the row loop fails exactly when a drawn row has no style; otherwise it yields one node per drawn row and one edge per drawn row but the top, in row order |
| Structure.BuildHierarchy | src/pages/Struktur.py:41-95 | `build_hierarchy` fails exactly when a drawn row has no style; otherwise it yields the drawn rows' edges and their nodes, leaf-marked against those edges |
| StructureDraft.Rank | src/unused_pages/Struktur.py:23-30 | a rank is 0, 1 or 2 |
| StructureDraft.OfRankMember | src/unused_pages/Struktur.py:23-30 | the rows of a rank are exactly the rows whose name has that rank |
| StructureDraft.RankedOrder | src/unused_pages/Struktur.py:43 | the rank sort orders SEKTOR rows first and AMG rows last, loses and adds no row, and keeps the rows of each rank in their original order |
| StructureDraft.Bold | src/unused_pages/Struktur.py:64-86 | the node text is wrapped in `**` on both sides |
| StructureDraft.DrawnAt | src/unused_pages/Struktur.py:61-83 | a row is drawn exactly as on the structure page, and a drawn row is placed at its level: 0 for the top committee, otherwise its level below the top |
| StructureDraft.LevelsOf | src/unused_pages/Struktur.py:65-88 | one level per drawn row |
| StructureDraft.LevelsAreDistances | src/unused_pages/Struktur.py:61-88 | a drawn row is at level 0 exactly when it is the top committee; otherwise its level is one more than the steps from its parent up to the top, and within the depth asked for |
| StructureDraft.MaxLevel | src/unused_pages/Struktur.py:38-89 | the deepest level is at least every level and is one of them, or 0 when there are none |
| StructureDraft.MaxCount | src/unused_pages/Struktur.py:96 | the widest count is one of the counts and at least every count |
| StructureDraft.CountStep | src/unused_pages/Struktur.py:65-88 | counting one more row at its level keeps the counts equal to the number of drawn rows per level |
| StructureDraft.AddRow | src/unused_pages/Struktur.py:61-89 | drawing one more row adds its node, its edge unless it is the top committee, counts it at its level and moves the deepest level down to it |
| StructureDraft.DrawRankedRows | src/unused_pages/Struktur.py:45-89 | the row loop fails exactly when a drawn row has no style; otherwise it yields the nodes and edges of the drawn rows, the number of drawn rows per level and the deepest level |
| StructureDraft.BuildRankedHierarchy | src/unused_pages/Struktur.py:33-99 | the draft's `build_hierarchy` fails exactly when a drawn ranked row has no style; otherwise it yields the leaf-marked nodes and edges of the drawn ranked rows, the number of nodes on the fullest level (0 when none is drawn) and one more than the deepest level |
| StructureDraft.DiagramSize | src/unused_pages/Struktur.py:96-97 | the widest figure is the largest number of drawn rows on one level, 0 without rows, and the height one more than the deepest level |
| StructureDraft.WidestLevel | src/unused_pages/Struktur.py:96 | the largest count is the size of the fullest level |
| StructureDraft.HeightBounded | src/unused_pages/Struktur.py:69-89 | the deepest level never exceeds the depth asked for, and is 0 without a depth |
| StructureDraft.AmgParents | src/unused_pages/Struktur.py:115-120 | no more parents than rows |
| StructureDraft.AmgsUnder | src/unused_pages/Struktur.py:118-120 | no more AMG rows under a parent than rows |
| StructureDraft.NonAmg | src/unused_pages/Struktur.py:121-122 | no more other rows than rows |
| StructureDraft.AmgParentsDistinct | src/unused_pages/Struktur.py:115-125 | no parent is listed twice |
| StructureDraft.AmgParentsMember | src/unused_pages/Struktur.py:118-120 | a parent is listed exactly when some AMG row names it |
| StructureDraft.AmgsUnderMember | src/unused_pages/Struktur.py:118-120 | the AMG rows under a parent are exactly the AMG rows naming that parent |
| StructureDraft.NonAmgMember | src/unused_pages/Struktur.py:121-122 | the other rows are exactly the rows that are not AMGs |
| StructureDraft.AmgsUnderListed | src/unused_pages/Struktur.py:115-128 | a parent has AMG rows exactly when it is listed, so the `len(amgs) == 0` case never arises |
| StructureDraft.GroupAmgs | src/unused_pages/Struktur.py:115-122 | the grouping loop lists the AMG parents in first-met order, keeps the AMG rows of each parent in order, and the other rows in order |
| StructureDraft.Collapsed | src/unused_pages/Struktur.py:115-135 | one row per AMG parent, followed by every other row in order |
| StructureDraft.CollapseAmgs | src/unused_pages/Struktur.py:115-135 | the collapsing code yields one row per AMG parent and then every other row, as `Collapsed` describes |
| StructureDraft.CollapsedShape | src/unused_pages/Struktur.py:124-135 | after collapsing, each AMG parent has one AMG row, the first under it, renamed `"<n> AMG"` when it stands for n > 1 rows with n readable back from the name, followed by the other rows in order |
| StructureDraft.CombinedRanksLast | src/unused_pages/Struktur.py:23-30 | a combined `"<n> AMG"` row ranks with the AMGs, last |
| StructureDraft.FirstTopIndex | src/unused_pages/Struktur.py:140 | the position found is that of the first row without a parent, or the end |
| StructureDraft.TopCommittee | src/unused_pages/Struktur.py:140-141 | there is no top committee exactly when every row has a parent; otherwise it is the first row without one |
| StructureDraft.ChildrenWithChildren | src/unused_pages/Struktur.py:144-146 | keeps exactly the rows that are children of the top committee and some row's parent |
| StructureDraft.ImportantCommittees | src/unused_pages/Struktur.py:143-147 | no tabs exactly when there is no top committee; otherwise the tabs are the children of the top committee that have children, each as often as it occurs |
| StructureDraft.ImportantAreParents | src/unused_pages/Struktur.py:143-147 | the tabs after the top committee are exactly its children that have children, each as often as it occurs, SEKTOR rows first and AMG rows last |

## Left out

- Streamlit rendering, widgets, `st.rerun`/`st.stop`, the Keycloak login and role gating are not modelled. A rerun is a boolean the selection returns, and a tree component that reports nothing (a falsy result) does nothing.
- SQL and ORM execution, sessions, connection pooling and the recursive CTE's mechanics are not modelled. Tables are maps and sets, and the descendant query is a closure.
- Rows are compared as sets, not in their order. The model does not fix the row order of a query without `ORDER BY`.
- Column lengths, database id counters, and conversions between strings and integers are not modelled. A new key is any key not yet in use.
- `src/utils/data_import.py`, `src/forms.py`, `src/utils/config.py` and `src/utils/database.py` are not part of this model. They are CSV import, widget forms, environment reads and a thin SQLAlchemy wrapper.
- Simple getters that return a whole table (`get_all_roles`, `get_all_unions` and the like) are not modelled as operations of their own.
- The legacy tables of the front page and the jobs declare no constraints in the code. The model keys `udvalg` and `person` by their ids and holds `personrolle` as a set of rows, so ids are treated as primary keys. Addresses may repeat, and an update by address changes every matching row, as a SQL `WHERE` does.
- The ALTER TABLE step that adds the `isystem` column, and all logging, are not modelled.
- Exceptions in `clean` are not caught per person. The first search that raises stops the run, and the rows already committed stay committed.
- The directories' answers (Delta, the school directory, Microsoft Graph) are inputs to the model, not computed. The HTTP requests, certificates (pkcs12) and the parsing of HTTP responses are not modelled.
- Delta's request template is mutated in place and shared between calls. The model builds a fresh criteria list per call.
- Delta's method names resolved by `getattr` are not modelled.
- JSON `null` values in responses are read as absent.
- `%` and `_` wildcards inside a search value are taken literally by the `LIKE` model.
- Base64 is an encoder parameter of `ApiRequests`, not an implementation of RFC 4648.
- `time.time()` is one integer instant per authentication. Floats and clock drift are not modelled.
- Lower-casing covers ASCII and Latin-1 letters only. The rest of Unicode case folding is not modelled.
- CommitteeTree.Tree: the tree is unfolded at most as many levels deep as there are rows. Deeper nesting arises only from a parent cycle, where the Python builders produce a cyclic object graph that the model does not represent.
- Queries.PersonsByRolesAndTopCommittees: with top committees, the model asks for acyclic parent pointers everywhere, although the recursive query only loops on a cycle below a top committee.
- CommitteeTree.GetCommitteeTree: in the code the node index shares its dicts with the tree, so its nodes carry their children. The model's index holds childless nodes, since the pages only read labels from it.
- The front page's priority sort compares labels that may be `None` in Python, which raises. The model's labels are strings.
- `main.py` reads its list of priority roles from configuration, which is not part of this model. `Roster` takes the list as a parameter.
- Roster.SortMembers: for the first app, `DataFrame.sort_values` with several keys is not guaranteed stable. The model sorts stably, so equal keys keep their row order.
- CommitteeTree.FirstAppTree: the first app's nodes carry no CSS class, but the model's nodes keep the committee's type.
- The `mailto:` HTML display of member addresses is not modelled.
- Structure and StructureDraft do not model colours, styles, node positions, layout or the screenshot/PDF configuration. A NULL committee name reads as the empty string, and ids are integers rather than strings.
- StructureDraft.BuildRankedHierarchy: in the draft page (src/unused_pages/Struktur.py) a NULL committee name makes `custom_sort` raise `AttributeError` on `startswith`, so the sorts in `build_hierarchy` and for `important_udvalg` fail, as does the `.strip()` of the node text; the model does not reproduce that exception: `StructureDraft.Rank`, `StructureDraft.Bold`, `StructureDraft.BuildRankedHierarchy` and `StructureDraft.ImportantCommittees` read the NULL name as the empty string (rank 1, text `****`).
- Structure and StructureDraft require acyclic parent pointers for their walks, as the pages never end otherwise.
- StructureDraft does not model the tab labels, which are only display text.

## Findings

| source | as written | input that shows it | evidently intended | confidence | as-written member | corrected member |
|---|---|---|---|---|---|---|
| src/Forside.py:385-397 | moving a committee excludes only the committee itself from the new parents | committees 1 > 2 > 3, move 2 under 3: 2 and 3 become each other's parent and every ancestor walk from them never ends | refuse any new parent whose ancestor chain contains the committee | not executed | FrontPage.MoveAsWritten, FrontPage.MoveAsWrittenCreatesCycle, FrontPage.LegacyDb.MoveCommittee | FrontPage.MoveChecked, FrontPage.MoveCheckedKeepsAcyclic, FrontPage.MoveCheckedExact, FrontPage.LegacyDb.MoveCommitteeChecked |
| src/school_data.py:47-56 | the user name column is aliased as unquoted `Brugernavn`, which PostgreSQL folds to `brugernavn`, then read back as `row.get("Brugernavn", "")` | any school person with a user name: the record's `Brugernavn` is `""` | the record carries the person's user name | not executed | SchoolDirectory.MapRowAsWritten, SchoolDirectory.AsWrittenDropsUsername | SchoolDirectory.MapRow, SchoolDirectory.MapRowKeepsColumns |
| src/jobs_for_airflow.py:105-117 | a single Graph user's `E-mail` becomes the new address whenever it is non-empty and different | one Graph user without `mail`: the mapper yields `'-'` (src/ms_graph.py:24-25) and the person's address is set to `'-'` | only a real address replaces the old one | not executed | Reconciliation.GraphEmailAsWritten, Reconciliation.GraphPlaceholderBecomesEmail, Reconciliation.DecideStoresPlaceholder | Reconciliation.GraphEmail, Reconciliation.GraphEmailAgrees |
| src/utils/api_requests.py:124-132 | the `refresh_token` grant is set, then always overwritten by `password` or `client_credentials` | a client with a refresh token: the form's `grant_type` is never `refresh_token` | a refresh sends the `refresh_token` grant (RFC 6749 section 6) | not executed | ApiRequests.TokenFormAsWritten, ApiRequests.RefreshGrantNeverSent | ApiRequests.TokenForm, ApiRequests.TokenFormAgreesWithoutRefresh |
