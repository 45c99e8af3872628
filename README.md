# Weekday: account provisioning, news listing and the text splitter

This project models three pieces of the Weekday intranet application in
Dafny and proves properties of them.

- **AccountManager** (`Weekday.Data/AccountManager.cs`) is the provisioning
  workflow. It creates, updates and deletes users and their role memberships
  through the identity framework's UserManager and RoleManager. It undoes a
  half-created user when role assignment fails, and it reconciles a user's
  roles by set difference. Its read side joins users to role names, with
  paging.
- **NewsRepository.GetNewsAsync** (`Weekday.Data/Repositories/NewsRepository.cs`)
  lists company news. It sorts newest first, optionally keeps one author's
  items, and pages the result with -1 sentinels.
- **UtiltityService.splitInTwo** (`Weekday/ClientApp/src/app/services/utility.service.ts`)
  splits a text at the first occurrence of a separator and trims both halves.

The identity store is a class, `Identity.IdentityStore`. It holds:

- the tables as a `Db` value;
- a log of every call with its outcome;
- an oracle `decide`, which says whether each call succeeds, fails with
  error descriptions, or throws;
- the manager's `SupportsUserLockout` flag;
- a token function.

The store still enforces its own rules whatever the oracle says:

- user names are unique, and a user id already in use makes a create throw;
- an unknown user cannot be updated, deleted or given roles;
- a role can only be given when it is in the role table, and not twice;
- a wrong current password is refused.

Each `AccountManager` method returns its result together with the ghost
list of store calls it made. Its contract ties that list to the store's log
and states the whole run as a predicate over the old tables, the new tables,
the calls and the result: `CreateUserRun`, `UpdateUserRun`,
`CheckPasswordRun` and the others. The lemmas then state what the source
promises about every such run.

The query functions (the news query, the role diff, the paging arithmetic,
the user/role join and the splitter) are functions on sequences. The
queries `GetUsers`, `GetUserById`, `FilterRoles` and `GetRoleFiltered` are
implemented by the EF DbContext, outside this model; here they are
parameters.

Behaviour of the code worth knowing, all proved below:

- The skip count `(page - 1) * pageSize` is computed in unchecked 32-bit
  arithmetic and wraps. Page 65537 of size 65536 skips nothing.
- A page size of -1 does not switch the skip off. Page 0 with page size -1
  skips one item.
- `splitInTwo` resumes one character after the start of the match, whatever
  the separator's length. A longer separator's tail therefore stays in the
  second part.
- Without a separator the text comes back untrimmed.
- `CheckPasswordAsync` calls `AccessFailedAsync` only when the store does
  not support lockout. A wrong password then answers false unless that
  call throws, and the failure is counted when the call succeeds.

## Model

| member | source | states |
|---|---|---|
| Linq.Skip | Weekday.Data/AccountManager.cs:54-55 | `Enumerable.Skip`: a non-positive count skips nothing, a count past the end leaves nothing, otherwise the suffix after `n` items |
| Linq.Take | Weekday.Data/AccountManager.cs:57-58 | `Enumerable.Take`: a non-positive count gives nothing, a count past the end gives everything, otherwise the first `n` items |
| Linq.ExceptFrom | Weekday.Data/AccountManager.cs:142-143 | the elements of `a` outside `seen` are kept in `a`'s order (the result is a subsequence of `a`), each once: its members are exactly `Members(a) - seen` and it has no repeats |
| Linq.Except | Weekday.Data/AccountManager.cs:142 | `a.Except(b)` holds exactly the members of `a` not in `b`, with no repeats, as a subsequence of `a` in the order of first occurrence |
| Linq.ExceptFromFirstOrder | Weekday.Data/AccountManager.cs:142-143 | `ExceptFrom` yields its elements in the order of their first occurrence in `a` (proved by induction) |
| Linq.Distinct | Weekday.Data/AccountManager.cs:109 | `Distinct()` keeps every member, each once, as a subsequence of `a` in the order of first occurrence |
| Linq.ExceptFromKeeps | Weekday.Data/AccountManager.cs:142-143 | a repeat-free sequence that avoids `seen` passes through unchanged (proved by induction) |
| Linq.DistinctOfNoDups | Weekday.Data/AccountManager.cs:143 | `Distinct` is the identity on a sequence without repeats, so the `Distinct()` after `Except` changes nothing |
| Linq.Without | Weekday.Data/AccountManager.cs:147 | the store's removal of role names keeps exactly the members outside the removed set, in their order (a subsequence), and keeps the list repeat-free |
| Paging.Wrap | Weekday.Data/AccountManager.cs:55 | C# unchecked `int` arithmetic: the result is congruent to the exact value modulo 2^32 and equals it when it is in range |
| Paging.SkipCount | Weekday.Data/AccountManager.cs:55 | the skip count `(page - 1) * pageSize` in unchecked 32-bit arithmetic; its consequences are `SkipCountWraps` and `OrdinaryPage` |
| Paging.Page | Weekday.Data/AccountManager.cs:54-58 | the two optional clauses with the -1 sentinels; what they select is `PageIsWindow` |
| Paging.Clamp | Weekday.Data/AccountManager.cs:54-58 | a count clamped to `0..n`, as Skip and Take clamp it: never past the end |
| Paging.Window | Weekday.Data/AccountManager.cs:54-58 | the bounds of the page as a slice: start never after end, end never past the input |
| Paging.PageIsWindow | Weekday.Data/AccountManager.cs:54-58 | the two optional clauses always select the contiguous slice `Window` computes: nothing is added or reordered |
| Paging.NoPageSkipsNothing | Weekday.Data/Repositories/NewsRepository.cs:29-32 | with `page == -1` the result is a prefix of the input |
| Paging.PageSizeBounds | Weekday.Data/Repositories/NewsRepository.cs:34-37 | with `pageSize != -1` at most `pageSize` items come back, and none for a negative size |
| Paging.NoPagingIsIdentity | Weekday.Data/Repositories/NewsRepository.cs:29-37 | with both sentinels the whole input comes back |
| Paging.OrdinaryPage | Weekday.Data/Repositories/NewsRepository.cs:29-37 | page `p >= 1` of size `k >= 0` without overflow is the slice from `(p-1)*k` of length `k`, cut at the end |
| Paging.UnboundedPageSize | Weekday.Data/Repositories/NewsRepository.cs:29-37 | with `pageSize == -1`, pages `>= 1` give everything and page 0 skips exactly one item |
| Paging.SkipCountWraps | Weekday.Data/Repositories/NewsRepository.cs:31 | the skip count overflows: page 65537 of size 65536 skips 0 items |
| NewsRepository.InsertByDate | Weekday.Data/Repositories/NewsRepository.cs:21-22 | one insertion step of the sort adds exactly the new item to the multiset |
| NewsRepository.InsertKeepsNewestFirst | Weekday.Data/Repositories/NewsRepository.cs:21-22 | inserting into a newest-first sequence keeps it newest first (proved by induction) |
| NewsRepository.OrderByDateDescending | Weekday.Data/Repositories/NewsRepository.cs:21-22 | the sort is a permutation: the same items, each as often |
| NewsRepository.OrderedIsNewestFirst | Weekday.Data/Repositories/NewsRepository.cs:21-22 | the sorted sequence has non-increasing creation dates (proved by induction) |
| NewsRepository.ByAuthor | Weekday.Data/Repositories/NewsRepository.cs:26 | the author filter keeps each of the author's items as often as it is stored, and nothing else |
| NewsRepository.ByAuthorKeepsNewestFirst | Weekday.Data/Repositories/NewsRepository.cs:24-27 | filtering keeps the newest-first order (proved by induction) |
| NewsRepository.GetNewsIsNewestFirst | Weekday.Data/Repositories/NewsRepository.cs:19-39 | every result is ordered by creation date, newest first |
| NewsRepository.SliceIsNewestFirst | Weekday.Data/Repositories/NewsRepository.cs:29-37 | a slice of a newest-first sequence is newest first |
| NewsRepository.GetNewsFiltersByAuthor | Weekday.Data/Repositories/NewsRepository.cs:24-27 | with a non-empty author id every item is that author's; with a null or empty id the result is the paged sorted table, with no filter |
| NewsRepository.GetNewsIsSlice | Weekday.Data/Repositories/NewsRepository.cs:21-39 | the result is the contiguous slice `Window` selects out of the filtered, ordered sequence |
| NewsRepository.GetNewsBounds | Weekday.Data/Repositories/NewsRepository.cs:29-37 | with `page == -1` nothing is skipped; with `pageSize != -1` at most `pageSize` items come back |
| NewsRepository.GetNewsUnpaged | Weekday.Data/Repositories/NewsRepository.cs:19-39 | with both sentinels the result is every matching item, each as often as stored, newest first |
| NewsRepository.IsNullOrEmpty | Weekday.Data/Repositories/NewsRepository.cs:24 | `string.IsNullOrEmpty`: a null or empty author id |
| NewsRepository.Matching | Weekday.Data/Repositories/NewsRepository.cs:21-27 | the ordered table, filtered by author when one is given; its properties are `GetNewsFiltersByAuthor` and `GetNewsIsNewestFirst` |
| NewsRepository.GetNews | Weekday.Data/Repositories/NewsRepository.cs:19-39 | GetNewsAsync: the matching items, paged; its properties are `GetNewsIsNewestFirst`, `GetNewsFiltersByAuthor`, `GetNewsIsSlice`, `GetNewsBounds` and `GetNewsUnpaged` |
| Utility.IndexFrom | Weekday/ClientApp/src/app/services/utility.service.ts:19 | `indexOf` gives -1 exactly when there is no occurrence at or after the start; otherwise an occurrence with none before it |
| Utility.LeadingWhitespace | Weekday/ClientApp/src/app/services/utility.service.ts:25-26 | the count of leading white space stops at a character that is not white space |
| Utility.TrailingWhitespace | Weekday/ClientApp/src/app/services/utility.service.ts:25-26 | the count of trailing white space stops at a character that is not white space |
| Utility.LeadingAreWhitespace | Weekday/ClientApp/src/app/services/utility.service.ts:25-26 | everything counted at the front is white space (proved by induction) |
| Utility.TrailingAreWhitespace | Weekday/ClientApp/src/app/services/utility.service.ts:25-26 | everything counted at the back is white space (proved by induction) |
| Utility.TrimStart | Weekday/ClientApp/src/app/services/utility.service.ts:25-26 | what is left after the leading white space does not start with white space |
| Utility.TrimEnd | Weekday/ClientApp/src/app/services/utility.service.ts:25-26 | what is left before the trailing white space does not end with white space |
| Utility.Trim | Weekday/ClientApp/src/app/services/utility.service.ts:25-26 | `trim()` leaves neither end white space |
| Utility.TrimIsInfix | Weekday/ClientApp/src/app/services/utility.service.ts:25-26 | the trimmed string is the infix of the input that starts after its leading white space |
| Utility.TrimDropsOnlyWhitespace | Weekday/ClientApp/src/app/services/utility.service.ts:25-26 | everything outside that infix is white space |
| Utility.SplitWithoutSeparator | Weekday/ClientApp/src/app/services/utility.service.ts:19-23 | the separator does not occur exactly when the result is the untrimmed text with a null second part |
| Utility.SplitAtFirstOccurrence | Weekday/ClientApp/src/app/services/utility.service.ts:19-28 | at the first occurrence `k`, the parts are the trimmed text before `k` and the trimmed text from `k + 1`; the text before `k` holds no occurrence of the separator |
| Utility.IndexOfFirst | Weekday/ClientApp/src/app/services/utility.service.ts:19 | `indexOf` returns the first occurrence |
| Utility.SplitPartsAreTrimmed | Weekday/ClientApp/src/app/services/utility.service.ts:25-26 | when the separator is found, neither part starts or ends with white space |
| Utility.SplitRoundTrip | Weekday/ClientApp/src/app/services/utility.service.ts:19-28 | for a one-character separator, joining a prefix free of it, the separator and any suffix, then splitting, gives the trimmed prefix and the trimmed suffix |
| Utility.SplitDecomposes | Weekday/ClientApp/src/app/services/utility.service.ts:19-28 | conversely, when a one-character separator occurs, the text is the prefix before its first occurrence, the separator and the rest, and the parts are their trims |
| Utility.SplitSkipsOneCharacter | Weekday/ClientApp/src/app/services/utility.service.ts:26 | the second part starts one character after the match whatever the separator's length, so a longer separator's tail stays in it |
| Utility.IsWhitespace | Weekday/ClientApp/src/app/services/utility.service.ts:25-26 | the characters JavaScript's `trim()` removes: the ECMAScript white space and line terminators |
| Utility.IndexOf | Weekday/ClientApp/src/app/services/utility.service.ts:19 | `indexOf` from the start; what it returns is `IndexOfFirst` and `IndexFrom` |
| Utility.Substr | Weekday/ClientApp/src/app/services/utility.service.ts:26 | `substr(start)`: the rest of the text from `start`, empty past the end |
| Utility.SplitInTwo | Weekday/ClientApp/src/app/services/utility.service.ts:18-29 | splitInTwo; its properties are `SplitWithoutSeparator`, `SplitAtFirstOccurrence`, `SplitPartsAreTrimmed`, `SplitRoundTrip`, `SplitDecomposes` and `SplitSkipsOneCharacter` |
| Identity.Settle | Weekday.Data/AccountManager.cs:100-102 | a store call that would break the store's rules is refused with its errors; otherwise the oracle's outcome stands; an exception stays an exception |
| Identity.Answer | Weekday.Data/AccountManager.cs:105 | a read either returns or throws; it never fails with errors |
| Identity.RoleCheck | Weekday.Data/AccountManager.cs:109 | AddToRolesAsync's name checks pass exactly when every name is in the role table and not held; a failure is UserAlreadyInRole for a held name; a throw is for a name missing from the table |
| Identity.IndexedInsert | Weekday.Data/AccountManager.cs:100 | filing a new user under a free id and a free name keeps the user-name index exact |
| Identity.IndexedReplace | Weekday.Data/AccountManager.cs:133 | replacing a user's record, under a name nobody else has, keeps the index exact |
| Identity.IndexedRemove | Weekday.Data/AccountManager.cs:208 | removing a user and its name keeps the index exact |
| Identity.Db.Insert | Weekday.Data/AccountManager.cs:100 | a created user is added with no roles, and the tables stay valid |
| Identity.Db.Replace | Weekday.Data/AccountManager.cs:133 | an update replaces the user's record and keeps every membership |
| Identity.Db.Remove | Weekday.Data/AccountManager.cs:208 | a delete removes exactly that user's record, memberships, password and counter; every other user's rows and the role table are kept |
| Identity.Db.Grant | Weekday.Data/AccountManager.cs:109 | adding roles that are all in the role table makes the user hold its old roles plus the named ones, without repeats, and changes no other user; every role held stays in the role table |
| Identity.Db.Revoke | Weekday.Data/AccountManager.cs:147 | removing roles makes the user hold its old roles minus the named ones and changes no other user |
| Identity.Db.SetPassword | Weekday.Data/AccountManager.cs:167 | a password change stores the new password and keeps users and roles |
| Identity.Db.CountFailure | Weekday.Data/AccountManager.cs:188 | a failed access raises the user's counter by one and keeps every other counter, the users, roles, passwords and role table |
| Identity.InsertThenRemove | Weekday.Data/AccountManager.cs:113-119 | deleting a user that was just inserted gives back the tables as they were |
| Identity.IdentityStore.constructor | Weekday.Data/AccountManager.cs:18-27 | the injected user and role managers start from valid tables with an empty call log |
| Identity.IdentityStore.Create | Weekday.Data/AccountManager.cs:100 | CreateAsync: a user name another user has is refused with DuplicateUserName; otherwise an id already in use makes the save throw; on success the user is inserted; the call is logged |
| Identity.IdentityStore.FindByName | Weekday.Data/AccountManager.cs:105 | FindByNameAsync returns the user with that name, if any |
| Identity.IdentityStore.FindById | Weekday.Data/AccountManager.cs:198 | FindByIdAsync returns the user with that id, or null |
| Identity.IdentityStore.Update | Weekday.Data/AccountManager.cs:133 | UpdateAsync is refused for an unknown user or a name someone else has; on success the record is replaced |
| Identity.IdentityStore.Delete | Weekday.Data/AccountManager.cs:208 | DeleteAsync is refused for an unknown user; on success the user is removed |
| Identity.IdentityStore.GetRoles | Weekday.Data/AccountManager.cs:140 | GetRolesAsync returns the user's role names |
| Identity.IdentityStore.AddToRoles | Weekday.Data/AccountManager.cs:109 | AddToRolesAsync checks the names in order (`RoleCheck`): a name the user holds fails the call with UserAlreadyInRole, a name missing from the role table makes it throw; a call that passes is refused for an unknown user; on success the named roles are granted |
| Identity.IdentityStore.RemoveFromRoles | Weekday.Data/AccountManager.cs:147 | RemoveFromRolesAsync revokes the named roles on success |
| Identity.IdentityStore.CheckPassword | Weekday.Data/AccountManager.cs:185 | CheckPasswordAsync answers whether the stored password is the given one |
| Identity.IdentityStore.AccessFailed | Weekday.Data/AccountManager.cs:188 | AccessFailedAsync is refused for an unknown user and counts one failed attempt on success; whether it throws is the store's decision |
| Identity.IdentityStore.GeneratePasswordResetToken | Weekday.Data/AccountManager.cs:165 | the token handed out is the store's token for that call |
| Identity.IdentityStore.ResetPassword | Weekday.Data/AccountManager.cs:167 | ResetPasswordAsync stores the new password on success |
| Identity.IdentityStore.ChangePassword | Weekday.Data/AccountManager.cs:176 | ChangePasswordAsync is refused with PasswordMismatch when the current password is wrong; on success it stores the new one |
| Identity.IdentityStore.CreateRole | Weekday.Data/AccountManager.cs:91 | RoleManager.CreateAsync is refused for a taken role name; on success the role is added |
| Accounts.Report | Weekday.Data/AccountManager.cs:92-95 | every IdentityResult becomes `(true, [])` on success or `(false, its error descriptions)` on failure; an exception propagates |
| Accounts.RolesToRemove | Weekday.Data/AccountManager.cs:142 | the roles to remove are exactly the current roles that are not requested, once each |
| Accounts.RolesToAdd | Weekday.Data/AccountManager.cs:143 | the roles to add are exactly the requested roles the user lacks, once each |
| Accounts.ReconcileReachesRequested | Weekday.Data/AccountManager.cs:142-157 | removing then adding turns the current roles into exactly the requested set; a removal is needed exactly when a current role is not requested, an addition exactly when a requested role is missing |
| Accounts.EmptyMembers | Weekday.Data/AccountManager.cs:145-152 | a sequence has no members exactly when it is empty, which is what the two `Any()` tests decide |
| Accounts.NamesFor | Weekday.Data/AccountManager.cs:65 | a user's role names are exactly the names of the fetched roles whose id is among its memberships |
| Accounts.RoleIdsOf | Weekday.Data/AccountManager.cs:60 | every membership's role id of every listed user is collected, and nothing else |
| Accounts.RolesWithIds | Weekday.Data/AccountManager.cs:62 | a role query filtered by ids returns exactly the table rows with a listed id |
| Accounts.GetUserAndRoles | Weekday.Data/AccountManager.cs:34-48 | an unknown user gives null; a known one is paired with what FilterRoles gives for its role ids (what that means is `UserAndRolesJoin`) |
| Accounts.UsersAndRolesArePaged | Weekday.Data/AccountManager.cs:50-66 | the users listed are exactly the page `Window` selects, in GetUsers' order, one entry each |
| Accounts.UsersAndRolesJoin | Weekday.Data/AccountManager.cs:60-66 | when GetRoleFiltered returns the rows with the given ids, each listed user is paired with exactly the names of the roles among its memberships |
| Accounts.NamesOfFetchedRoles | Weekday.Data/AccountManager.cs:60-66 | naming, among the roles fetched for all ids, those whose id is one user's gives exactly the table's roles with that user's ids |
| Accounts.UserAndRolesJoin | Weekday.Data/AccountManager.cs:34-48 | when FilterRoles gives the names of the table's roles with the given ids, a found user is paired with exactly the names of the roles it is a member of |
| Accounts.GetUsersAndRoles | Weekday.Data/AccountManager.cs:50-66 | GetUsersAndRolesAsync: the page of users, each paired with the names of its roles; its properties are `UsersAndRolesArePaged` and `UsersAndRolesJoin` |
| Accounts.AssignedSuccess | Weekday.Data/AccountManager.cs:107-123 | the try block succeeds only by granting the distinct requested roles |
| Accounts.CreateUserSuccess | Weekday.Data/AccountManager.cs:98-124 | a successful CreateUserAsync makes exactly the calls create, find by name and add the distinct roles; every requested role is in the role table; it adds the user with exactly the requested roles, each once; no other user's roles change |
| Accounts.AssignedFailure | Weekday.Data/AccountManager.cs:111-121 | a failed or thrown role assignment, or a null role list, always ends with a delete of the user |
| Accounts.CreateUserRefused | Weekday.Data/AccountManager.cs:100-103 | a create the store refuses is the only call, changes nothing and reports its errors, or raises when it threw |
| Accounts.CreatedThenUndone | Weekday.Data/AccountManager.cs:105-121 | after the create, a run that does not succeed restores the old tables exactly when its last call is a delete that succeeds; otherwise the new user stays |
| Accounts.CreateUserFailure | Weekday.Data/AccountManager.cs:98-121 | a CreateUserAsync that created the user but does not succeed restores the tables exactly when it ends with a successful delete; otherwise the new user stays, without roles |
| Accounts.RolesAddedFacts | Weekday.Data/AccountManager.cs:152-157 | the addition step touches only the user's own roles and on success adds the listed ones |
| Accounts.ReconciledFrame | Weekday.Data/AccountManager.cs:140-157 | whatever its outcome, reconciliation keeps the user records and every other user's roles |
| Accounts.ReconciledSuccess | Weekday.Data/AccountManager.cs:140-160 | a successful reconciliation leaves exactly the requested roles, each once |
| Accounts.ReconciledFailure | Weekday.Data/AccountManager.cs:145-157 | a reconciliation that does not succeed ends with a refused call whose result is reported; a refused removal is the only call and leaves the tables as they were; after a removal that succeeded, a refused addition leaves the removal in place |
| Accounts.AddedFailure | Weekday.Data/AccountManager.cs:152-157 | an addition step that does not succeed is one AddToRolesAsync call whose result is reported, and it changes nothing |
| Accounts.UpdateUserWithoutRoles | Weekday.Data/AccountManager.cs:126-138 | with a null role list only the update call is made and no membership changes |
| Accounts.UpdateUserSuccess | Weekday.Data/AccountManager.cs:131-161 | a successful update replaces the record; with a role list the user ends with exactly those roles, each once; no other user's roles change |
| Accounts.UpdateUserUnchangedRoles | Weekday.Data/AccountManager.cs:126-161 | when the user already holds the requested roles, the update and the role read are the only calls, so no role is removed or added; the result is the update's when it does not succeed, raised when the read throws, and success otherwise; no membership changes |
| Accounts.UnchangedRolesRead | Weekday.Data/AccountManager.cs:138-157 | for a user already holding the requested roles, the role half is the one read, success unless it throws, and no change |
| Accounts.CheckPasswordVerdict | Weekday.Data/AccountManager.cs:183-194 | the answer is true exactly when the password matches, false exactly when it does not and no call threw, and raised exactly when the last call threw; AccessFailedAsync is called exactly when the password does not match and lockout is unsupported, once and as the second call; the tables change only by the one failure counted when that call succeeds |
| Accounts.NewPasswordChecks | Weekday.Data/AccountManager.cs:163-181 | after a successful reset or change, checking the new password answers true and counts no failure |
| Accounts.NewPasswordStored | Weekday.Data/AccountManager.cs:163-181 | a successful reset or change stores the new password for the user |
| Accounts.StoredPasswordChecks | Weekday.Data/AccountManager.cs:183-194 | checking the stored password is one call that answers true and changes nothing |
| Accounts.KnownWhenDistinctKnown | Weekday.Data/AccountManager.cs:109 | when the distinct requested roles are all in the role table, so are all requested roles |
| Accounts.GrantToNewUser | Weekday.Data/AccountManager.cs:100-109 | a newly created user, granted the distinct requested roles, holds exactly those, each once |
| Accounts.GrantToNewUserFrame | Weekday.Data/AccountManager.cs:100-109 | creating a user and granting it roles adds exactly its record and changes no other user's roles |
| Accounts.AssignedOrUndone | Weekday.Data/AccountManager.cs:107-123 | the try block and its catch: a null list deletes the user and raises; otherwise the distinct roles are added, and on failure the user is deleted and the errors reported unless the delete throws |
| Accounts.FetchedAndAssigned | Weekday.Data/AccountManager.cs:105-123 | the user is fetched again by name; a throw there leaves the new user without roles; otherwise the try block runs |
| Accounts.CreateUserRun | Weekday.Data/AccountManager.cs:98-124 | CreateAsync first, its refusal passed through; then the rest from the tables with the new user |
| Accounts.RolesAdded | Weekday.Data/AccountManager.cs:152-157 | the addition is one AddToRolesAsync call, made only for a non-empty list, its result reported |
| Accounts.Reconciled | Weekday.Data/AccountManager.cs:142-157 | the removal, when some roles are to go, whose failure ends the update; then the addition |
| Accounts.RolesUpdated | Weekday.Data/AccountManager.cs:138-160 | nothing for a null role list; otherwise GetRolesAsync and the reconciliation of what it returned |
| Accounts.UpdateUserRun | Weekday.Data/AccountManager.cs:131-161 | UpdateAsync first, its failure passed through; then the role half from the updated tables |
| Accounts.CheckPasswordRun | Weekday.Data/AccountManager.cs:183-194 | the check; a wrong password answers false, after one AccessFailedAsync call when lockout is unsupported, whose exception escapes and whose success counts the failure |
| Accounts.ResetPasswordRun | Weekday.Data/AccountManager.cs:163-172 | a reset token is generated and handed to ResetPasswordAsync, whose result is reported |
| Accounts.UpdatePasswordRun | Weekday.Data/AccountManager.cs:174-181 | one ChangePasswordAsync call, which succeeds only with the stored current password, its result reported |
| Accounts.AccountManager.constructor | Weekday.Data/AccountManager.cs:18-27 | the manager works on the store it is given |
| Accounts.AccountManager.CreateRole | Weekday.Data/AccountManager.cs:89-96 | one RoleManager call, its result mapped by `Report` |
| Accounts.AccountManager.DeleteUser | Weekday.Data/AccountManager.cs:206-210 | one delete call, its success flag and errors passed through |
| Accounts.AccountManager.DeleteUserById | Weekday.Data/AccountManager.cs:196-204 | an unknown id gives `(true, [])` with no delete call; a known one is deleted and the delete's result passed through |
| Accounts.AccountManager.AssignRolesOrUndo | Weekday.Data/AccountManager.cs:107-123 | the try block and its catch: the run satisfies `AssignedOrUndone` |
| Accounts.AccountManager.CreateUser | Weekday.Data/AccountManager.cs:98-124 | the calls made and the new tables satisfy `CreateUserRun` |
| Accounts.AccountManager.FetchAndAssign | Weekday.Data/AccountManager.cs:105-123 | the fetch by name and the try block: the run satisfies `FetchedAndAssigned` |
| Accounts.AccountManager.AddRoles | Weekday.Data/AccountManager.cs:152-157 | the addition is made only for a non-empty list |
| Accounts.AccountManager.ReconcileRoles | Weekday.Data/AccountManager.cs:140-157 | removal first, skipped when empty, and a refused removal returns at once; then the addition: the run satisfies `Reconciled` |
| Accounts.AccountManager.UpdateUserWithRoles | Weekday.Data/AccountManager.cs:131-161 | the calls made and the new tables satisfy `UpdateUserRun` |
| Accounts.AccountManager.UpdateRoles | Weekday.Data/AccountManager.cs:138-160 | nothing for a null role list; otherwise the read and the reconciliation: the run satisfies `RolesUpdated` |
| Accounts.AccountManager.UpdateUser | Weekday.Data/AccountManager.cs:126-129 | the one-argument overload is the run with a null role list |
| Accounts.AccountManager.CheckPassword | Weekday.Data/AccountManager.cs:183-194 | the calls made and the new tables satisfy `CheckPasswordRun` |
| Accounts.AccountManager.ResetPassword | Weekday.Data/AccountManager.cs:163-172 | a token is generated and handed to the reset, whose result is passed through |
| Accounts.AccountManager.UpdatePassword | Weekday.Data/AccountManager.cs:174-181 | one change-password call, its result passed through |

## Left out

- `async`/`Task`: every call is one sequential step. There is no concurrency, so two requests interleaving on the same store are not modelled.
- Password hashing, token generation and validation, lockout bookkeeping and the identity validators belong to the framework. Passwords are compared as stored strings. Whether a token or a new password is accepted is decided by the oracle.
- Error descriptions are strings. The framework's `IdentityError` codes other than the store's own refusals come only from the oracle.
- `IApplicationDbContext.GetUsers`, `GetUserById`, `FilterRoles` and `GetRoleFiltered` are implemented by the EF DbContext, outside this model. Here they are parameters, so the user order is GetUsers' own.
- Identity.IdentityStore.Create: user names are compared as exact strings. The framework's validator compares the upper-case normalized names, so two names that differ only in case are both accepted here. The validator's other rules (allowed characters, unique e-mail) are left to the oracle.
- Identity.IdentityStore.Update: user names are compared as exact strings, not by their normalized form.
- Identity.IdentityStore.FindByName: looks a user up by the exact name, not by the normalized name.
- Identity.IdentityStore.AccessFailed: the stock UserManager throws NotSupportedException here when its store has no lockout support. The model leaves the throw to the oracle; the stock framework is the oracle that always throws for this call.
- Identity.IdentityStore.AddToRoles: role names are looked up exactly. The framework looks them up by normalized name, so a name that differs from the table's only in case is accepted there and throws here. A list naming the same role twice is granted once here; the manager always passes distinct names.
- Identity.IdentityStore.GetRoles: the names held are the role table's exact names; the framework's case-insensitive lookup is not modelled.
- Identity.IdentityStore.CreateRole: role names are compared as exact strings, not by their normalized form.
- Accounts.AccountManager.UpdateUserWithRoles: the role difference uses ordinal `Except`, as the source does. With the framework's case-insensitive role names, asking for "admin" for a user holding "Admin" removes "Admin" and adds it back under the lookup. Here the addition throws, because role names are exact.
- The pass-throughs `GetUserByIdAsync`, `GetAllRolesAsync`, `GetRoleByNameAsync` and `GetRoleByIdAsync` only forward one framework call each and are not modelled. `GetUserLineManagersAsync` returns a null result and is not modelled either.
- `GetUserAndRolesAsync` passes a null id list when the user's `Roles` collection is null. Here a user row always has a (possibly empty) list of role ids.
- Skip and Take follow LINQ to Objects, which is how the user list runs. The news query is translated to SQL by the database provider. Its handling of a negative skip or take, and the order of news items with equal creation dates, are not modelled. The sort here is stable.
- `DateTime` is reduced to a tick count.
- JavaScript strings are UTF-16 code units. Here a string is a sequence of Unicode characters, so a surrogate pair counts as one character.
- `uniqueId`/`randomNumber` use `Math.random` and floating point and are not modelled.
- The controllers, the Angular components, the database initializer and the EF schema configuration are not part of this model.
