# User lifecycle over one `users` table

A Dafny model of the user management API: the `users` table with its column
constraints and unique keys, the request and response schemas, the
`UserService` that creates, looks up, lists, patches and deletes users (and
repairs rows whose timestamps are NULL), and the HTTP handlers that guard it.

- `wrappers.dfy` (module `Wrappers`): `Option` and `Result`.
- `text.dfy` (module `Text`): substring containment, the `in` test the service
  applies to error messages.
- `models.dfy` (module `Models`): the `UserRole` enumeration, the `User` row, and
  the table invariant the storage enforces at commit. The invariant says keys are
  positive ids, usernames and emails are unique, and strings fit their columns.
  The roles are referred to under two names in the schemas and the models; they
  are one type here.
- `schemas.dfy` (module `Schemas`): covers the following.
  - Validation of a create body: bounds and defaults.
  - Validation of the all-optional update body.
  - The response records.
- `services.dfy` (module `Services`): covers the following.
  - Classification of a failed commit.
  - The single-row and bulk timestamp repairs.
  - The listing: filter, then newest-first order, then an in-memory slice.
  - The patch loop.
  - The `UserService` class. Its fields are `rows`, a `map` from id to row, and
    `nextId`, the next AUTO_INCREMENT value. Its methods stand for the service's
    operations.
- `routes.dfy` (module `Routes`): covers the following.
  - The page arithmetic.
  - One method per HTTP handler. Each takes the service object, guards the id,
    runs the pre-checks and calls the service.

The storage is MySQL: `ORDER BY created_at DESC` puts rows whose `created_at`
is NULL last, and InnoDB spends an AUTO_INCREMENT value on an insert that fails.
The storage reports a broken unique key by the key's name. Those names are
`users.ix_users_username` and `users.email`. The service classifies the error
with its own substring tests, username first. The model commits with the broken
key's name as the message. It also models the full error text, which names the
failed statement; see "## Findings".

The timestamp repair assigns only the timestamps that are NULL
(`app/services/user.py:105-108` and `117-123`). `updated_at` has an `onupdate`
default (`app/models/user.py:62`). An UPDATE that writes `created_at` without
naming `updated_at` therefore also sets `updated_at` to now. So a row whose
`created_at` is NULL ends the repair with both timestamps now. A row that has
`created_at` keeps it, and keeps `updated_at` unless that was NULL.

The email validator behind `EmailStr` is a parameter of the validation. It
either rejects an address or returns its normalized form, and the validated
request carries the normalized form.

Inputs that FastAPI validates before a handler runs are preconditions of the
handler methods. The validation itself is modelled separately by
`ValidateCreate` and `ValidateUpdate`.

## Model

| member | source | states |
|---|---|---|
| Models.ParseRole | app/models/user.py:9-14 | exactly the three strings "admin", "user", "guest" name a role, and the role found has that value |
| Models.ParseRoleValue | app/models/user.py:9-14 | each role's value parses back to that role and no other |
| Models.TableValid | app/models/user.py:22-46 | the invariant of every committed table: in particular two different rows never share a username or an email |
| Models.ViolatedKeys | app/models/user.py:30-36 | the username key is broken exactly when another row holds the same username; likewise the email key |
| Models.CommitKeepsTableValid | app/models/user.py:22-36 | a row that fits its columns can be committed under its id exactly when it breaks no unique key; the committed table then still has unique usernames and emails |
| Models.ViolatedKeysIgnoreOwnRow | app/models/user.py:30-36 | whatever the table holds under a row's own id does not affect which keys the row breaks |
| Schemas.ValidateCreate | app/schemas/user.py:9-23 | a create body is accepted exactly when username is 3-50 characters, the email is valid, both names are 1-100 characters and any role is a known one. An accepted body copies every field, the email in its normalized form, and defaults role to `user` and active to true. A rejected body reports exactly the failing fields |
| Schemas.ValidateUpdate | app/schemas/user.py:43-51 | every field is optional. A present field meets the create bounds. An accepted body keeps exactly its present fields, a present email normalized. A rejected one reports exactly the failing username, email, first name, last name and role |
| Schemas.ToResponse | app/schemas/user.py:64-73 | `model_validate` of a row carries over every column, NULL timestamps included |
| Schemas.ToResponses | app/schemas/user.py:64-73 | one response per row, in order, each carrying every column, with timestamps that may be NULL |
| Services.Classify | app/services/user.py:29-46 | a message that mentions "username" is a username conflict. Otherwise one that mentions "email" is an email conflict. Otherwise it is the generic failure of the operation |
| Services.InsertErrorSaysUsername | app/services/user.py:29-41 | on the full error text of a failed INSERT, which names the `username` column, the classification is a username conflict whichever key broke |
| Services.UpdateErrorSaysUsername | app/services/user.py:147-159 | on the full error text of a failed UPDATE that changes the username, the classification is a username conflict whichever key broke |
| Services.EmailClashReportedAsUsername | app/services/user.py:29-41 | a concrete failed create that broke the email key is classified as a username conflict, though the email key's conflict is the email one |
| Services.ClassifyKey | app/services/user.py:29-163 | the storage's report of a broken username key is classified as a username conflict, and of a broken email key as an email conflict, on create (lines 29-46) and on update (lines 147-163) |
| Services.DetailNamesField | app/services/user.py:35-162 | the detail of a failed create (lines 35-45) or update (lines 153-162) names "Username" exactly for a username conflict and "Email" exactly for an email conflict, and says "already exists" exactly for the two conflicts |
| Services.DriverMessage | app/services/user.py:29-32 | the driver's report of a duplicate entry contains the offending value and the name of the broken key |
| Services.ErrorText | app/services/user.py:29-150 | `str(e)` of a failed create (lines 29-32) or update (lines 147-150) contains the name of the broken key, the offending value and the text of the failed statement |
| Services.InsertStatementColumns | app/services/user.py:23-25 | the text of the INSERT flushed at the commit contains the name of every column it inserts |
| Services.InsertColumnsAllButId | app/services/user.py:23-25 | the INSERT names every column but the id, which the storage assigns |
| Services.UpdateColumnsChanged | app/services/user.py:137-143 | the UPDATE flushed at the commit assigns a column exactly when its value changed, and never the id or `created_at` |
| Services.UpdateStatementColumns | app/services/user.py:137-143 | the text of the UPDATE contains the assignment of every column it assigns |
| Services.RepairRow | app/services/user.py:102-108 | after the repair both timestamps are set. A set `created_at` is kept. A NULL one becomes now, and then `updated_at` also becomes now through the `onupdate` default. Otherwise a set `updated_at` is kept and a NULL one becomes now. Every other column is unchanged |
| Services.RepairRowIdempotent | app/services/user.py:54-55 | repair leaves a row that has both timestamps untouched, so repairing twice is repairing once |
| Services.FillCreatedAt | app/services/user.py:117-119 | the bulk update sets `created_at` to now on exactly the rows where it is NULL. Through the `onupdate` default it sets `updated_at` to now on those rows too. It keeps every key |
| Services.FillUpdatedAt | app/services/user.py:121-123 | the bulk update sets `updated_at` to now on exactly the rows where it is NULL, and keeps every key |
| Services.RepairAll | app/services/user.py:113-125 | the table with every row repaired and the same keys |
| Services.BulkUpdatesRepairAll | app/services/user.py:113-125 | the two bulk updates together repair each row exactly as the single-row repair does |
| Services.RepairAllIdempotent | app/services/user.py:84 | after a bulk repair no row lacks a timestamp, and a second repair at any later time changes nothing |
| Services.RepairOneKeepsValid | app/services/user.py:102-110 | repairing one row keeps the table invariant |
| Services.RepairAllKeepsValid | app/services/user.py:113-125 | the bulk repair keeps the table invariant |
| Services.RepairAllKeepsMatching | app/services/user.py:84-89 | the bulk repair does not change which rows the active filter selects |
| Services.OnlyRepairedTrans | app/services/user.py:49-77 | repairs made by several lookups in a row are repairs of the original rows |
| Services.Selected | app/services/user.py:86-89 | the scan yields only rows of the table that pass the filter, each under its own id, in increasing id order |
| Services.SelectedComplete | app/services/user.py:86-89 | the scan misses no row that passes the filter |
| Services.SelectedCount | app/services/user.py:86-89 | the scan has exactly one entry per id that passes the filter |
| Services.PrependNewestFirst | app/services/user.py:91 | a row not older than every row of a newest-first sequence may be put in front of it |
| Services.Insert | app/services/user.py:91 | inserting a row into a newest-first sequence keeps it newest first and adds exactly that row |
| Services.SortNewestFirst | app/services/user.py:91-93 | the result is in non-increasing `created_at` order, with NULL last, and is a permutation of its input |
| Services.ListingSpec | app/services/user.py:86-95 | the listing is newest first, has as many rows as pass the filter, and holds a row exactly when the table holds it and it passes the filter |
| Services.Page | app/services/user.py:96 | the slice `[skip : skip + limit]` with Python's clamping has length `min(limit, max(0, n - skip))`, and its i-th row is row `skip + i` |
| Services.Listing | app/services/user.py:86-93 | the selected rows ordered newest first: a newest-first permutation of the filtered scan |
| Services.PageNewestFirst | app/services/user.py:91-96 | a page of a newest-first listing is newest first |
| Services.Dump | app/services/user.py:137 | `model_dump(exclude_unset=True)`: it holds an assignment for every field the patch sets, with its value, and no other assignment |
| Services.ApplyPatch | app/services/user.py:137-139 | each present field takes its new value, each absent field keeps its old one, and id and timestamps are untouched. Column widths hold when the patch meets the update bounds |
| Services.ApplyPatchIdempotent | app/services/user.py:137-139 | applying a patch twice equals applying it once |
| Services.AssignAllStep | app/services/user.py:138-139 | performing one dumped entry, if present, before the rest |
| Services.DumpAppliesPatch | app/services/user.py:137-139 | performing the dumped set fields one `setattr` after another yields the patched row |
| Services.AssignFields | app/services/user.py:137-139 | the `setattr` loop over the dump yields the patched row |
| Services.NewRow | app/services/user.py:22-23 | the new row copies every validated field, gets the given id and both timestamps now; a create within the schema bounds fits the columns |
| Services.UserService.constructor | app/models/user.py:17-28 | an empty table whose next id is 1 |
| Services.UserService.CreateUser | app/services/user.py:19-46 | with no key broken, the new row copies every input field, gets the next id, has both timestamps now, and is the only change. With a key broken the table is unchanged and the error names a broken key. The id is spent either way |
| Services.UserService.FixUserTimestamps | app/services/user.py:102-110 | that one row is repaired, the flush's `onupdate` stamp included, and no other row changes |
| Services.UserService.GetUserById | app/services/user.py:49-59 | it returns a row exactly when the id exists. The returned row is that row repaired, has both timestamps, and is the only change; a missing id changes nothing |
| Services.UserService.GetUserByUsername | app/services/user.py:61-68 | it returns a row exactly when some row holds the username. The returned row holds it, is repaired and is the only change; otherwise nothing changes |
| Services.UserService.GetUserByEmail | app/services/user.py:70-77 | it returns a row exactly when some row holds the email. The returned row holds it, is repaired and is the only change; otherwise nothing changes |
| Services.UserService.FixAllUserTimestamps | app/services/user.py:113-125 | the table becomes the bulk-repaired table, and the invariant holds |
| Services.UserService.GetUsers | app/services/user.py:79-99 | it repairs every row. `total` counts every row that passes the filter. The page is the slice of the newest-first listing and has length `min(limit, max(0, total - skip))`. Each returned row is in the table, passes the filter and has both timestamps |
| Services.UserService.UpdateUser | app/services/user.py:127-163 | a missing id returns None and changes nothing. Otherwise the loaded row is repaired and patched, and `updated_at` becomes now. It commits if it breaks no key; otherwise the repaired row is kept and the error names a broken key |
| Services.UserService.DeleteUser | app/services/user.py:165-176 | true exactly when the row exists. Its `active` becomes false and its `updated_at` now; the row stays, and nothing else changes |
| Services.UserService.HardDeleteUser | app/services/user.py:178-188 | true exactly when the row existed. The row is gone and every other row is unchanged |
| Routes.Skip | app/api/v1/routes/user.py:107 | page 1 skips nothing, and the rows skipped plus one page are `page` pages |
| Routes.SkipConsecutive | app/api/v1/routes/user.py:107 | page 1 starts at row 0, and each page starts `size` rows after the previous one |
| Routes.PageCount | app/api/v1/routes/user.py:112 | pages is at least 1. It is 1 when there are no rows. Otherwise it is the least `pages` with `(pages - 1) * size < total <= pages * size` |
| Routes.PagesAreNonEmpty | app/api/v1/routes/user.py:107-112 | when there are rows, page p is non-empty exactly when p is at most the page count |
| Routes.UsernameChanges | app/api/v1/routes/user.py:209 | within the update bounds, the username is pre-checked exactly when the patch changes it |
| Routes.EmailChanges | app/api/v1/routes/user.py:217 | within the update bounds, the email is pre-checked exactly when the patch changes it |
| Routes.CreateUser | app/api/v1/routes/user.py:60-73 | a taken username is rejected first, then a taken email. A rejection inserts nothing and spends no id. Otherwise the new row is inserted and returned, and the commit cannot fail |
| Routes.GetUsers | app/api/v1/routes/user.py:85-120 | the response echoes page and size. `total` counts the filtered rows before the repair. `pages` is the page count. The users are page `(page - 1) * size` of the listing, with the clamped length |
| Routes.GetUser | app/api/v1/routes/user.py:134-166 | a non-positive id gives "Invalid user ID" and a missing id "User not found", both without change. Otherwise it returns the repaired row |
| Routes.PreCheckUpdate | app/api/v1/routes/user.py:209-222 | a username is checked only when it is given, non-empty and different from the current one. A taken one is rejected before the email is looked at, which is checked the same way. Only the lookups' repairs touch the table |
| Routes.UpdateUser | app/api/v1/routes/user.py:181-225 | a bad id gives "Invalid user ID" and a missing id "User not found", both without change. A changed, taken username or email is rejected. Otherwise the patch commits, so re-sending a user's own username or email is never a conflict |
| Routes.SameUsernamesAfterRepair | app/api/v1/routes/user.py:203-210 | repairing the loaded row does not change which usernames are taken |
| Routes.SameEmailsAfterRepair | app/api/v1/routes/user.py:203-218 | repairing the loaded row does not change which emails are taken |
| Routes.NoClashAfterPreChecks | app/api/v1/routes/user.py:209-224 | a patched row whose changed username and email are free breaks no unique key |
| Routes.PreChecksSeeRepairedTable | app/api/v1/routes/user.py:203-222 | the pre-checks, run after the lookup repaired the loaded row, see the same changes and the same usernames and emails in use as in the table before it |
| Routes.CommitAfterPreChecks | app/api/v1/routes/user.py:209-224 | when both pre-checks pass, the update finds the loaded row already repaired, breaks no unique key, and leaves the updated row in place of the original |
| Routes.Outcome.Detail | app/api/v1/routes/user.py:60-285 | a rejection passes on the service's detail, so it names "Username" exactly for a taken username and "Email" exactly for a taken email (lines 60-70, 209-222); "Invalid user ID" and "User not found" name neither field (lines 154-164, 197-207, 246-256, 275-285) |
| Routes.DetailIdentifiesError | app/api/v1/routes/user.py:154-164 | two error answers carry the same detail exactly when they are the same error, so a client can tell every error from its detail |
| Routes.DeleteUser | app/api/v1/routes/user.py:239-256 | a bad id gives "Invalid user ID". Otherwise "User not found" comes exactly when the row is missing, and the table is as the soft delete leaves it |
| Routes.HardDeleteUser | app/api/v1/routes/user.py:270-285 | a bad id gives "Invalid user ID". Otherwise "User not found" comes exactly when the row is missing, and the row is gone |

## Left out

- Async execution, the session, the engine and the connection pool: every call is sequential and runs to its commit or rollback before the next starts.
- Concurrency: the race between a pre-check and the commit is not modelled. Uniqueness is an invariant of the table, checked at commit.
- Models.UniqueUsernames: compares usernames exactly, which assumes a binary collation. MySQL's default collation, which nothing in the source overrides, compares case-insensitively.
- Models.UniqueEmails: compares emails exactly, which assumes a binary collation.
- Models.UsernameTaken: exact comparison assumes a binary collation. Under MySQL's default collation, "JohnDoe" would find the row "johndoe".
- Models.EmailTaken: exact comparison assumes a binary collation.
- Models.ViolatedKeys: exact comparison assumes a binary collation.
- Routes.CreateUser: exact comparison assumes a binary collation. Under a case-insensitive collation, a username that differs from a taken one only in case is rejected by the service, but inserted by the model.
- Routes.UpdateUser: exact comparison assumes a binary collation. Under a case-insensitive collation, an update that only changes the case of the user's own username finds the user's own row and is rejected; the model commits it.
- Services.ClassifyKey: holds for the message that is only the name of the broken key, which is what the model's commits report. On the full error text the classification goes wrong; see "## Findings".
- Services.UserService.CreateUser: when both keys are broken, the key the storage reports is a nondeterministic choice of the model.
- Services.UserService.UpdateUser: when both keys are broken, the key the storage reports is a nondeterministic choice of the model.
- The error text: the `[parameters: ...]` line that SQLAlchemy appends, and its link to the documentation, are not part of the modelled text.
- The wall clock: `now` is a parameter, and one request uses one instant. The source reads the clock separately in the repair and in the update, and the `onupdate` default reads a clock of its own.
- Timezones: timestamps are abstract naturals.
- Email address syntax and normalization: the validator is a parameter. Only its bound of 254 characters on the normalized address is built in.
- An explicit JSON `null` in an update body: each field is either absent or a value. A `null` would pass `exclude_unset` and write NULL to a non-null column; that is not modelled.
- `math.ceil` on a float quotient: `pages` uses integer ceiling division. The two agree while `total` is far below 2^53.
- Negative `skip` or `limit` given to the service directly: they are `nat` here. The routes derive them from `page >= 1` and `size >= 1`.
- Services.SortNewestFirst: rows with equal `created_at` come in the order the model's insertion sort gives. The storage leaves that order unspecified, and so does the contract.
- Services.UserService.GetUsers: sorts the filtered rows itself, in increasing id order when `created_at` ties, and Routes.GetUsers slices that one order page after page. The storage promises no order among ties, so the source's pages may overlap or skip rows from one request to the next; the model's cannot.
- Services.UserService.CreateUser: ids are unbounded here. The `INT` id column is signed 32-bit, so the storage's AUTO_INCREMENT stops at 2147483647 and every later insert fails; the model keeps handing out ids.
- Routes.CreateUser: the same unbounded id, through the service's create.
- Re-validation of a returned row against the `UserResponse` bounds: not modelled. The response carries every column unchecked.
- HTTP status codes, FastAPI decorators and query parsing: a handler returns an `Outcome` that names the error, with its detail string. The query defaults (`page=1`, `size=10`, `active_only=true`) belong to query parsing. `GetUsers` takes all three explicitly.
- Logging, settings, migrations and the application root are not part of this model.

## Findings

| source | as written | input that shows it | evidently intended | confidence | as-written member | corrected member |
|---|---|---|---|---|---|---|
| app/services/user.py:32-41 | `"username" in str(e)` tests the whole error text. That text includes the failed INSERT, which names the `username` column | a create whose email is taken but whose username is free. It reaches the commit when a concurrent create takes the email after the pre-check, and it is answered "Username already exists" | classify by the key that broke: "Email already exists" | medium, not executed | Services.InsertErrorSaysUsername | Services.ClassifyKey |
| app/services/user.py:150-159 | the same test on update. The UPDATE names `username` whenever the patch changes it | an update that changes the username and sets an email that another request takes after the pre-check. It is answered "Username already exists" | "Email already exists" | medium, not executed | Services.UpdateErrorSaysUsername | Services.ClassifyKey |
