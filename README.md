# CMS backend core, modelled in Dafny

CMS is a Go REST backend. Staff register and log in, and keep a profile with an avatar. Each user has a wallet, which can be recharged and charged. Users publish resources (a title, text and code) that others list, search, view, like and comment on. This project models the business logic behind those services:

- **Wallet ledger** (`AccountRepo`, `AccountService`). The `user_account` table is a map from user uuid to a row. The map is a field of `AccountStore`, and create, recharge and deduct update it in place. Money is integer cents, because the columns are DECIMAL(10,2). The ledger rule `balance = total_recharge - total_consume`, with nothing negative, is a class invariant. It is also proved for every sequence of repository calls (`RunKeepsLedger`).
- **Resources** (`ResourceRepo`, `ResourceService`). The `resources` table is a map from id to row. The model covers:
  - the keyword filter and its count;
  - the newest-first ordering, as a stable insertion sort proved to be a sorted permutation;
  - `LIMIT offset, limit` paging;
  - the scan and convert loops;
  - the three +1 counters, which leave everything else alone and silently succeed on a missing id.
- **Users** (`UserRepo`, `StaffService`). The `users` table is a map from id to row, with its four unique indexes (uuid, username, email, phone) as a class invariant. The model covers:
  - registration: trimming, limits, defaults, uniqueness, and the user-plus-wallet transaction;
  - the change-set update, which only touches non-blank fields, built clause by clause as the source does;
  - the avatar replacement;
  - the profile read with its masked phone.
- **Utilities** (`TokenUtil`, `VerifyCode`):
  - `CleanToken` and the empty-token check of `ParseToken`;
  - the size-limited writer and the copy loop that feeds it;
  - `SaveAvatar`'s checks;
  - the e-mail verification codes, with expiry and one-shot use;
  - the hex helper and the markdown URL mapping.
- **Support** (`Results`, `Text`, `Clock`). `Results` holds Option and Result. `Text` holds the ASCII string functions the Go code calls (`strings.TrimSpace`, `Contains`, `HasPrefix`, `ToLower`, `EqualFold`, `LastIndex`). `Clock` holds a calendar date-time with the `"2006-01-02 15:04:05"` and `"2006-01-02"` layouts, proved to round-trip.

Strings are ASCII `seq<char>`, so Go's `len` is `|s|`. Bytes are ints in 0..255. The current time, random digits, generated uuids, password hashes, uploaded file contents and file deletion outcomes are parameters.

Where the code and its design description disagree, the model follows the code. Examples:
- The Go `base64Encode` writes lower-case hex, not base64.
- `GetUserByUuid` in the service reports a missing user as a lookup failure. Its "not found" test compares against a freshly made error value, which never matches.

## Model

| member | source | states |
|---|---|---|
| AccountRepo.RechargeSpec | internal/repository/order.go:65-92 | A recharge fails for a non-positive amount first, then for an unknown uuid. Otherwise it adds the amount to `balance` and `total_recharge` of that row only. |
| AccountRepo.DeductSpec | internal/repository/order.go:95-142 | A deduction fails in order for a non-positive amount, an unknown uuid, or a balance below the amount (reporting both). Otherwise it moves the amount from `balance` to `total_consume` of that row only. |
| AccountRepo.DeductWholeBalance | internal/repository/order.go:115-117 | The comparison is strict, so deducting exactly the balance succeeds and leaves zero. |
| AccountRepo.UpdatesKeepDrift | internal/repository/order.go:70-79 | Both updates keep `balance - total_recharge + total_consume` of every row. |
| AccountRepo.StepKeepsLedger | internal/repository/order.go:39-142 | Any one repository call keeps the ledger rule on every row and never lowers a total. |
| AccountRepo.RunKeepsLedger | internal/repository/order.go:39-142 | Any sequence of creates, recharges and deductions keeps every balance non-negative and equal to recharges minus consumption, and no total ever decreases. |
| AccountRepo.WalletScenario | internal/repository/order.go:65-142 | Create, recharge 100.00 and deduct 30.00 leave 70.00. A further 100.00 deduction is refused for insufficient funds. |
| AccountRepo.AccountStore.constructor | internal/repository/order.go:39-62 | An empty ledger satisfies the invariant. |
| AccountRepo.AccountStore.CreateAccount | internal/repository/order.go:39-62 | A duplicate uuid is refused with the table unchanged, so each uuid has at most one account. Otherwise a zero row is added. Either way the insert uses up one auto-increment id, as InnoDB does. |
| AccountRepo.AccountStore.RechargeBalance | internal/repository/order.go:65-92 | Matches `Recharge`, keeps the ledger invariant, and leaves the table unchanged on every error. |
| AccountRepo.AccountStore.DeductBalance | internal/repository/order.go:95-142 | Matches `Deduct`, keeps the ledger invariant, and leaves the table unchanged on every error, so the balance never goes negative. |
| AccountRepo.AccountStore.GetAccountByUserUUID | internal/repository/order.go:145-166 | An unknown uuid is absent, not an error. A found uuid gives back its stored row, whose balance is non-negative and equal to recharges minus consumption. |
| AccountService.Snapshot | internal/service/account_ser.go:85-90 | The response carries the row's four figures. |
| AccountService.CreateAccount | internal/service/account_ser.go:41-52 | An empty uuid is refused before the repository and uses no id. A duplicate is refused with the table unchanged. Success adds a zero row. Every insert attempt uses up one auto-increment id. |
| AccountService.Recharge | internal/service/account_ser.go:55-91 | Errors come in source order: empty uuid, non-positive amount, unknown user, missing account. No error changes the ledger. Success returns the updated row's figures. |
| AccountService.Deduct | internal/service/account_ser.go:94-130 | The same order, plus insufficient funds passed through with the balance. No error changes the ledger. Success returns the updated row, whose balance is non-negative. |
| AccountService.GetAccountByUserUUID | internal/service/account_ser.go:133-155 | An empty uuid and a missing account are distinct errors. A found account comes back as the snapshot of its stored row, which satisfies the ledger rule. |
| ResourceRepo.Scan | internal/repository/resource.go:181-198 | NULL text or code content reads back as "". Non-NULL content reads back as stored. |
| ResourceRepo.ScanStored | internal/repository/resource.go:51-65 | An inserted resource reads back with every supplied field unchanged, counters included. |
| ResourceRepo.SelectedIff | internal/repository/resource.go:147-154 | A row is selected exactly when the keyword occurs in its title, text or code. The empty keyword selects every row. |
| ResourceRepo.Filter | internal/repository/resource.go:147-154 | Filtering keeps exactly the selected rows of the scan. |
| ResourceRepo.FilterAppend | internal/repository/resource.go:147-154 | Filtering distributes over concatenation. |
| ResourceRepo.FilterCount | internal/repository/resource.go:211-238 | Filtering the scan yields one row per selected id. |
| ResourceRepo.InsertPerm | internal/repository/resource.go:157-159 | Inserting into the ordered list adds exactly that row. |
| ResourceRepo.InsertSorted | internal/repository/resource.go:157-159 | Inserting keeps the list newest first. |
| ResourceRepo.SortNewestSpec | internal/repository/resource.go:157-159 | `ORDER BY publish_time DESC` yields a permutation of its input, newest first. |
| ResourceRepo.Window | internal/repository/resource.go:159-161 | `LIMIT offset, limit` keeps at most `limit` rows, starting after the first `offset`. |
| ResourceRepo.QuerySpec | internal/repository/resource.go:137-161 | The ordered selection holds exactly the selected rows, newest first, one per selected id. |
| ResourceRepo.RowsMembers | internal/repository/resource.go:176-200 | The scan holds the table's rows and nothing else. |
| ResourceRepo.QueryTimesValid | internal/repository/resource.go:137-161 | Every listed row has a calendar publish time. |
| ResourceRepo.BumpSpec | internal/repository/resource.go:296-347 | A bump adds one to its own counter. The other two counters and every other modelled column keep their values. |
| ResourceRepo.IncrSpec | internal/repository/resource.go:296-347 | An increment changes only the row with that id. A missing id leaves the table as it was, and the call still succeeds. |
| ResourceRepo.IncrCommute | internal/repository/resource.go:296-347 | Increments commute, so the final counts do not depend on arrival order. |
| ResourceRepo.IncrTimesSpec | internal/repository/resource.go:296-347 | `k` increments raise that counter by exactly `k` and leave the other two alone. |
| ResourceRepo.OwnedBy | internal/repository/resource.go:85-92 | `WHERE user_id = ?` keeps exactly the user's rows. |
| ResourceRepo.ResourceStore.constructor | internal/repository/resource.go:43-65 | An empty table satisfies the invariant. |
| ResourceRepo.ResourceStore.CreateResource | internal/repository/resource.go:43-65 | Exactly one row is added under the next id, holding every supplied field. |
| ResourceRepo.ResourceStore.GetResourceByID | internal/repository/resource.go:242-292 | An unknown id is absent with no error. Otherwise the result is that row, scanned. |
| ResourceRepo.ResourceStore.CountIsQueryLength | internal/repository/resource.go:211-238 | The count equals the length of the whole ordered selection, so it does not depend on offset or limit. |
| ResourceRepo.ResourceStore.CountResources | internal/repository/resource.go:211-238 | The count never exceeds the number of rows. |
| ResourceRepo.ResourceStore.CountZeroIff | internal/repository/resource.go:211-238 | The count is zero exactly when no row matches the keyword. |
| ResourceRepo.ResourceStore.ScanAll | internal/repository/resource.go:176-200 | The scan loop yields one resource per row, in the query's order. |
| ResourceRepo.ResourceStore.GetResourceList | internal/repository/resource.go:137-208 | Returns the scanned window of the filtered, newest-first rows. A negative limit argument is an error. |
| ResourceRepo.ResourceStore.GetByUserID | internal/repository/resource.go:85-134 | Returns the user's rows newest first, scanned. |
| ResourceRepo.ResourceStore.IncrViewCount | internal/repository/resource.go:296-311 | `view_count + 1` on the matching row, and nothing on a missing id. |
| ResourceRepo.ResourceStore.IncrLikeCount | internal/repository/resource.go:314-329 | `like_count + 1` on the matching row, and nothing on a missing id. |
| ResourceRepo.ResourceStore.IncrCommentCount | internal/repository/resource.go:332-347 | `comment_count + 1` on the matching row, and nothing on a missing id. |
| ResourceService.ConvertModelToDTO | internal/service/resource_ser.go:92-109 | Every field is copied. The publish time becomes 19 characters that parse back to the same date-time. |
| ResourceService.CheckCreate | internal/service/resource_ser.go:40-68 | Refusals come in source order: user id 0, blank trimmed title, title over 100 bytes, unknown owner, blank owner username. On success the result is the owner's username. |
| ResourceService.DraftStored | internal/service/resource_ser.go:70-81 | The inserted row has the trimmed title and text, the code as given, the owner as author, `now` as publish time and zero counters. |
| ResourceService.CreateResource | internal/service/resource_ser.go:40-89 | A refusal inserts nothing. Success adds exactly that draft under the next id. |
| ResourceService.ConvertAll | internal/service/resource_ser.go:141-146 | The append loop converts every row, one item per row, in order. |
| ResourceService.GetResourceList | internal/service/resource_ser.go:112-150 | Rejects page < 1 and size outside 1..50. With no match the answer is empty with total 0. Otherwise the offset is `(page-1)*size` in 64-bit `int`: a wrapped negative offset fails as `ListFailed`, and any other offset returns that window of the newest-first selection, at most `size` items, converted in order, with the total matching count. |
| ResourceService.Offset | internal/service/resource_ser.go:122 | The offset equals `(page-1)*size` whenever that fits in 64 bits, and is a 64-bit value otherwise. |
| ResourceService.Wrap64 | internal/service/resource_ser.go:122 | The result is the 64-bit two's-complement value congruent to the input, and the input itself when it fits. |
| ResourceService.OffsetWraps | internal/service/resource_ser.go:122 | Page 2^62+1 of 4 items starts at row 0, and page 2^61+1 of 5 items has a negative offset. |
| ResourceService.ListPage | internal/service/resource_ser.go:134-146 | The repository is asked for the page at the offset. A negative offset is its error, passed back. Otherwise each row is converted, one item per row, in order. |
| ResourceService.PageFacts | internal/service/resource_ser.go:120-138 | A page holds at most `size` rows, newest first, all with valid publish times. It is empty when the count is zero, so the early return for a zero total loses nothing at any non-negative offset. |
| ResourceService.NewestFirstWindow | internal/service/resource_ser.go:121-122 | A page of a newest-first list is newest first. |
| ResourceService.GetResourceByID | internal/service/resource_ser.go:153-168 | Id 0 is refused. An unknown id is absent with no error. |
| ResourceService.IncrViewCount | internal/service/resource_ser.go:169-176 | No id check: the repository increment runs as is. |
| ResourceService.IncrLikeCount | internal/service/resource_ser.go:179-189 | Id 0 is refused and nothing changes. Otherwise the like counter is incremented. |
| ResourceService.CreateComment | internal/service/resource_ser.go:192-218 | Id 0 and blank content are refused with nothing changed. Otherwise only `comment_count` moves, and the content is not stored. |
| ResourceService.ZeroIdIsNoRow | internal/service/resource_ser.go:169-189 | Ids start at 1, so the id check of `IncrLikeCount` changes the answer, never the table. |
| UserRepo.ClashSymmetric | internal/repository/user_repo.go:141-143 | A collision on a unique index is symmetric. |
| UserRepo.PutKeepsUnique | internal/repository/user_repo.go:141-143 | Writing a row that collides with no other row keeps all four indexes unique. |
| UserRepo.PutKeepsTable | internal/repository/user_repo.go:109-161 | Writing a non-colliding row keeps the table well formed. |
| UserRepo.SameKeysKeepTable | internal/repository/user_repo.go:305-337 | Rewriting a row without touching its unique columns keeps the table well formed. |
| UserRepo.Conflict | internal/repository/user_repo.go:141-143 | Reports a violated index exactly when some other row collides with the new one. |
| UserRepo.FindId | internal/repository/user_repo.go:40-102 | `SELECT ... LIMIT 1` finds the lowest matching id, or reports that none matches. |
| UserRepo.Set | internal/repository/user_repo.go:181-218 | One set clause writes its column and nothing else. |
| UserRepo.RankInjective | internal/repository/user_repo.go:181-218 | The six columns have distinct positions. |
| UserRepo.NotYetListed | internal/repository/user_repo.go:181-218 | A column not yet considered is not yet in the clause list. |
| UserRepo.ClauseSkip | internal/repository/user_repo.go:181-218 | Skipping a nil or blank field keeps the clause list exact. |
| UserRepo.ClauseAdd | internal/repository/user_repo.go:181-218 | Appending a present field with its value keeps the clause list exact and in column order. |
| UserRepo.ClausesComplete | internal/repository/user_repo.go:181-233 | After the six blocks the list holds exactly the present fields, in column order, with one argument per clause. |
| UserRepo.AssignGet | internal/repository/user_repo.go:225-243 | Set clauses over distinct columns give each listed column its argument and leave every other column alone. |
| UserRepo.ChangeSetWrites | internal/repository/user_repo.go:225-243 | Running the change set writes every present field and nothing else. |
| UserRepo.ApplyChanges | internal/repository/user_repo.go:184-217 | The row after a change set keeps its id, uuid, password hash, role and avatar. |
| UserRepo.ApplyChangesGet | internal/repository/user_repo.go:184-217 | After a change set, each present field holds the request's value and every other column keeps its own. |
| UserRepo.UuidNamesOneRow | internal/repository/user_repo.go:229 | The uuid index is unique, so `WHERE uuid = ? LIMIT 1` can only ever name one row. |
| UserRepo.UserStore.constructor | internal/repository/user_repo.go:109-161 | An empty table satisfies the invariant. |
| UserRepo.UserStore.Lookup | internal/repository/user_repo.go:40-102 | A found row matches and is in the table. Absence means no row matches. |
| UserRepo.UserStore.GetUserByCredential | internal/repository/user_repo.go:40-102 | Looks up by username if given, else phone, else email. No credential is the only error, and no match is "absent". |
| UserRepo.UserStore.GetUserByUuid | internal/repository/user_repo.go:338-409 | Returns the row with uuid and password hash read back empty. A missing uuid is the "用户不存在" error. |
| UserRepo.UserStore.GetUserById | internal/repository/user_repo.go:410-491 | Returns the row with that id, or the "用户ID不存在" error. |
| UserRepo.UserStore.ExistMatchesLookup | internal/repository/user_repo.go:285-304 | Each `COUNT` existence check says yes exactly when the matching credential `SELECT` finds a row. |
| UserRepo.UserStore.CreateUser | internal/repository/user_repo.go:109-161 | A blank role is stored as "candidate". A unique-index collision is refused with nothing stored, though its auto-increment id is still used up, as in InnoDB. Otherwise the row is inserted under the next id, and the caller gets its own user back with only that id set, since the defaulted role stays in a local. |
| UserRepo.UserStore.RollbackInsert | internal/repository/user_repo.go:109-161 | Removing this transaction's insert restores the table and keeps the invariant. |
| UserRepo.UserStore.AddClause | internal/repository/user_repo.go:184-218 | One field block appends a clause exactly when the field is present and non-blank. |
| UserRepo.UserStore.BuildSetClauses | internal/repository/user_repo.go:181-218 | The clause list holds exactly the present fields, in column order, with their values as arguments. |
| UserRepo.UserStore.UpdateUser | internal/repository/user_repo.go:174-266 | Refuses a nil user or blank uuid, then an empty change set. No row with the uuid is "not found or unchanged". For the uuid's row, a change set that collides on a unique index is that duplicate key; one that leaves the row as it was affects no rows; any other writes exactly the present fields to that row. Every error leaves the table unchanged. |
| UserRepo.UserStore.UpdateAvatar | internal/repository/user_repo.go:305-337 | Refuses a blank uuid, then a blank URL. No row with the uuid, or a row that already holds the URL, affects no rows. Otherwise exactly that row's avatar becomes the URL. Every error leaves the table unchanged. |
| StaffService.PhoneLimitOnlyRenames | internal/service/staff_ser.go:173-181 | The 20-byte limit refuses no number the phone pattern accepts. |
| StaffService.PatternIsEmail | internal/service/staff_ser.go:27-30 | A text matched by the e-mail pattern is accepted by the last-'@'/last-dot decision. |
| StaffService.IsEmailIff | internal/service/staff_ser.go:27-30 | The last-'@'/last-dot decision accepts exactly the e-mail pattern's language. |
| StaffService.EmailExample | internal/service/staff_ser.go:27-30 | "a.b@example.com" matches. "a@b.c" and "@example.com" do not. |
| StaffService.NormalizeSpec | internal/service/staff_ser.go:148-200 | All eight refusals in source order: blank username, username too long, blank password, then e-mail too long or malformed and phone too long or malformed (each only when given), then role too long. A request is accepted exactly when it passes every rule, and is then its trimmed, defaulted form. |
| StaffService.FieldError | internal/service/staff_ser.go:150-187 | No refusal exactly when the username is 1 to 50 bytes, the password is not blank, the e-mail and phone are absent or well formed within their limits, and the role is at most 20 bytes. Any refusal is one of the eight field errors. |
| StaffService.DefaultsFill | internal/service/staff_ser.go:150-197 | The trims and defaults keep the username, e-mail and phone trimmed and the password as typed, and never leave the role, gender or real name empty. |
| StaffService.DefaultRoleKept | internal/service/staff_ser.go:184-187 | The stored role is trimmed and never blank, so the repository keeps it. |
| StaffService.DefaultsKeepKeys | internal/service/staff_ser.go:148-173 | Trimming the key fields a second time changes nothing. |
| StaffService.NormalizeIdempotent | internal/service/staff_ser.go:148-200 | Checking an accepted request again accepts it unchanged. |
| StaffService.Uniqueness | internal/service/staff_ser.go:203-231 | Passes exactly when the username is unused and the e-mail and phone are unused whenever given. Otherwise the first failing check decides the error: a taken username, then a taken e-mail, then a taken phone. |
| StaffService.Admit | internal/service/staff_ser.go:148-242 | Everything before the transaction passes exactly when the field checks, the uniqueness checks, the hash and the uuid all succeed. Otherwise the error is that of the first failing step in that order: the field error, the uniqueness error, `HashFailed`, then `UuidFailed`. |
| StaffService.StrToPtr | internal/service/staff_ser.go:412-417 | Blank text becomes NULL. Anything else is kept as it is. |
| StaffService.NewUser | internal/service/staff_ser.go:245-256 | An omitted e-mail or phone is stored as NULL. |
| StaffService.NewUserAsWritten | internal/service/staff_ser.go:245-256 | As written, the e-mail and phone are bound as given, "" included. That is the row's only difference from `NewUser`. |
| StaffService.BlankEmailCollides | internal/service/staff_ser.go:245-256 | As written, a second user without an e-mail passes every check and then collides on the unique e-mail index. |
| StaffService.AdmittedOnlyUuidClashes | internal/service/staff_ser.go:203-256 | With NULL for omitted fields, an admitted request can only collide on the generated uuid. |
| StaffService.RegisterAsWritten | internal/service/staff_ser.go:258-284 | As written, a refused account insert returns an error but leaves the new user row committed. A refused request uses no user id, and an admitted one uses exactly one. |
| StaffService.Register | internal/service/staff_ser.go:145-291 | Both rows are written or neither is. Every error leaves both tables unchanged. Every user keeps a wallet. Success returns the new id, username and role. A refused request uses no id, and an admitted one uses exactly one user id, even when it is rolled back. |
| StaffService.CheckUpdate | internal/service/staff_ser.go:352-375 | Refusals come in source order: blank uuid, bad phone, birth date not shaped YYYY-MM-DD, not a real date, or after now. The request is accepted exactly when the uuid is not blank, the phone is absent or valid, and a given birth date is a real, past date that reads back as written. |
| StaffService.ToModel | internal/service/staff_ser.go:378-387 | Blank optional fields become NULL. The birth date follows `parseBirthDate`. |
| StaffService.ToModelChangeSet | internal/service/staff_ser.go:378-387 | A request field enters the change set exactly when it is not blank. |
| StaffService.UpdateError | internal/service/staff_ser.go:390-405 | Each duplicate index gets its own message. Other errors are wrapped. |
| StaffService.UpdateUser | internal/service/staff_ser.go:349-408 | A refused check is returned as is. Otherwise the repository's outcome decides: an empty change set or a missing or unchanged row is an update failure, a unique-key collision is reported through `UpdateError`, and any other change writes exactly the request's non-blank fields to the uuid's row. Every error leaves the table unchanged. |
| StaffService.CheckFileName | internal/service/staff_ser.go:80-88 | A name passes only with a last dot that is neither first nor last and a lower-cased suffix of jpg, jpeg or png. |
| StaffService.CheckFileNameIff | internal/service/staff_ser.go:80-88 | A name passes exactly when some dot, after a non-empty stem, starts a dot-free image extension. |
| StaffService.CheckedNameExt | internal/service/staff_ser.go:80-88 | A name that passes gets from `SaveAvatar` the extension ".jpg", ".jpeg" or ".png". |
| StaffService.UpdateAvatar | internal/service/staff_ser.go:64-143 | The checks come in source order, then an unknown uuid is "user not found". For the uuid's row: too large or empty content is a save failure; an old non-default avatar that could not be deleted is a delete failure; a row already holding the new URL is an update failure; otherwise the new URL is returned and stored on that row only. Every error leaves the table unchanged. |
| StaffService.MaskPhone | internal/service/staff_ser.go:485-491 | An 11-byte phone keeps its first 3 and last 4 bytes, with "****" between. Other phones are untouched. |
| StaffService.MaskPhoneIdempotent | internal/service/staff_ser.go:485-491 | Masking twice is masking once. |
| StaffService.GetUserByUuid | internal/service/staff_ser.go:457-499 | An empty uuid is refused. A missing user is a lookup failure. The call succeeds exactly when the uuid is non-empty and stored. The user holding it comes back without uuid and password hash, with the phone masked. |
| TokenUtil.CleanToken | internal/pkg/jwt/jwt.go:17-24 | The result is a suffix of the trimmed token. Trimmed input of at most 7 bytes comes back as is. A longer trimmed token that starts with "bearer " in any letter case loses exactly those 7 bytes, and any other comes back as is. |
| TokenUtil.BearerFolds | internal/pkg/jwt/jwt.go:20 | "Bearer " equals "bearer " ignoring case. |
| TokenUtil.CleanBearerHeader | internal/pkg/jwt/jwt.go:17-24 | A trimmed "Bearer " header loses exactly the prefix. |
| TokenUtil.CleanTokenOfHeader | internal/pkg/jwt/jwt.go:17-24 | "Bearer " followed by a token gives the token back. |
| TokenUtil.CleanTokenStripsOnce | internal/pkg/jwt/jwt.go:17-24 | The prefix is dropped only once. |
| TokenUtil.CleanTokenEmptyIff | internal/pkg/jwt/jwt.go:17-24 | Cleaning yields "" exactly for blank input. |
| TokenUtil.ParseTokenInput | internal/pkg/jwt/jwt.go:66-70 | "token为空" exactly for blank input. Otherwise the result is the cleaned token. |
| TokenUtil.SizeLimitWriter.constructor | internal/pkg/jwt/jwt.go:149 | A fresh writer has written nothing. |
| TokenUtil.SizeLimitWriter.Write | internal/pkg/jwt/jwt.go:176-183 | A chunk that would pass `maxSize` writes nothing and changes nothing. Any other chunk is passed on and counted, so `written <= maxSize` always. |
| TokenUtil.Copy | internal/pkg/jwt/jwt.go:148-157 | The copy succeeds exactly when the content fits. The destination receives the content, or a prefix of it when a chunk is refused. |
| TokenUtil.Ext | internal/pkg/jwt/jwt.go:123 | The extension is "" or a dot-led suffix with no further dot or separator. |
| TokenUtil.ExtAtLastDot | internal/pkg/jwt/jwt.go:123 | The last dot of the last path element starts the extension. |
| TokenUtil.SaveAvatar | internal/pkg/jwt/jwt.go:116-165 | Refusals come in order: nil file, no extension, extension not in the allow-list text, too large, empty. Success returns the base URL, the file id and the extension. |
| TokenUtil.StoreAvatar | internal/pkg/jwt/jwt.go:148-164 | Content over 2 MiB is refused, then empty content. Success returns the base URL, the file id and the extension. |
| TokenUtil.SaveListedAvatar | internal/pkg/jwt/jwt.go:116-165 | `SaveAvatar` with the allow-list read as a list. With a listed extension, too large content and empty content are their own errors. It stores a file exactly when the lower-cased extension is ".jpg", ".jpeg" or ".png" and the content is 1 byte to 2 MiB. |
| TokenUtil.LooseExtensions | internal/pkg/jwt/jwt.go:123-129 | As written, ".jp", "." and ".jpg," pass the allow-list check. |
| TokenUtil.AllowedExtPasses | internal/pkg/jwt/jwt.go:112 | Every extension on the list passes the check as written. |
| VerifyCode.DigitChar | internal/pkg/jwt/email.go:36 | One draw gives one decimal digit. |
| VerifyCode.Spell | internal/pkg/jwt/email.go:29-37 | Each draw gives the digit of its value, in order. |
| VerifyCode.GenerateVerifyCode | internal/pkg/jwt/email.go:23-40 | Fails exactly when one of the six draws fails. Otherwise the code is six decimal digits, one per draw. |
| VerifyCode.Check | internal/pkg/jwt/email.go:211-241 | A missing entry fails with the store unchanged. An expired entry is deleted and fails, even with the right code. A wrong code fails and keeps the entry. The right code succeeds and deletes it. |
| VerifyCode.NoReplay | internal/pkg/jwt/email.go:238-240 | A code that succeeded can never succeed again. |
| VerifyCode.RetryAfterWrongCode | internal/pkg/jwt/email.go:234-236 | After a wrong guess, the right code still works within its lifetime. |
| VerifyCode.CodeStore.constructor | internal/pkg/jwt/email.go:196 | The store starts empty. |
| VerifyCode.CodeStore.Save | internal/pkg/jwt/email.go:199-208 | Stores the code with expiry five minutes after `now`, replacing any earlier entry. |
| VerifyCode.CodeStore.Verify | internal/pkg/jwt/email.go:211-241 | The outcome and the new store are those of `Check`. |
| VerifyCode.SaveThenCheck | internal/pkg/jwt/email.go:199-241 | A saved code is accepted for five minutes and reported expired after. |
| VerifyCode.HexEncode | internal/pkg/jwt/email.go:140-142 | Two lower-case hex digits per byte. |
| VerifyCode.HexValue | internal/pkg/jwt/email.go:140-142 | Reads exactly the lower-case hex digits. |
| VerifyCode.HexRoundTrip | internal/pkg/jwt/email.go:140-142 | Decoding the helper's output gives back every byte. |
| VerifyCode.DecodePair | internal/pkg/jwt/email.go:140-142 | Two digits in front decode to their byte in front. |
| VerifyCode.HexRoundTripText | internal/pkg/jwt/email.go:140-142 | Lower-case hex text has exactly one decoding, so the encoding is injective. |
| VerifyCode.MdLocalPath | internal/pkg/jwt/email.go:278-285 | URLs without the markdown prefix are refused. Others map to the same tail under `./uploads/md/`. |
| VerifyCode.MdLocalPathOf | internal/pkg/jwt/email.go:281-285 | Every URL under the prefix maps to its tail, and distinct URLs map to distinct paths. |
| Text.TrimSpaceEmptyIff | internal/service/staff_ser.go:157 | `strings.TrimSpace(s) == ""` exactly when `s` is all white space. |
| Text.TrimSpaceIdempotent | internal/service/staff_ser.go:148 | Trimming twice is trimming once. |
| Text.TrimSpace | internal/service/staff_ser.go:148 | `strings.TrimSpace`: the result is no longer than the input and neither starts nor ends with white space. |
| Text.ContainsIff | internal/pkg/jwt/jwt.go:127 | `strings.Contains(s, sub)` holds exactly when `sub` occurs at some position of `s`. |
| Text.ToLower | internal/service/staff_ser.go:84 | `strings.ToLower` keeps the length and lower-cases each letter in place. |
| Text.EqualFoldIff | internal/pkg/jwt/jwt.go:20 | `strings.EqualFold` holds exactly when both texts have the same length and agree letter by letter once lower-cased. |
| Clock.ParseFormat | internal/service/resource_ser.go:94 | The "2006-01-02 15:04:05" layout parses back to the same date-time. |
| Clock.FormatParseDate | internal/service/staff_ser.go:368 | A parsed "2006-01-02" date prints back as the same text. |
| Clock.ParseFormatDate | internal/service/staff_ser.go:368 | A midnight date prints and parses back to itself. |
| Clock.Format | internal/service/resource_ser.go:94 | The "2006-01-02 15:04:05" layout always writes 19 characters. |
| Clock.Parse | internal/service/resource_ser.go:94 | Reading the strict 19-character form back only ever gives a valid date-time. |
| Clock.ParseDate | internal/service/staff_ser.go:368 | `time.Parse("2006-01-02", s)` only gives midnight of a day that exists. |

## Left out

- SQL driver failures are left out: connection loss, scan errors, `rows.Err()`, and the MySQL error-number translation other than 1062. Only the logical outcome of each statement is modelled.
- Transactions are left out beyond `Register`. The `tx` parameters of `CreateResource` and `CreateAccount` are always nil or shared there.
- Concurrency is left out: the read-then-update race in `DeductBalance` and `sync.Map`'s thread safety. Everything is sequential.
- The HTTP layer (handlers, router, middleware) is not part of this model.
- bcrypt, JWT signing and verification, `uuid.New` and `crypto/rand` are replaced by parameters: the hash outcome, the uuid, the file id and the random draws. The rest of `ParseToken` (signature and expiry) is not modelled. `GenerateToken`, `HashPassword`, `CheckPassword` and `GenerateUUID` are not modelled.
- SMTP sending (`SendVerifyCodeMail`) is left out. So are all file-system work in `SaveAvatar`, `DeleteAvatar`, `SaveMdFile` and `DeleteMdFile`, and `SaveMdFile` itself. Only their string checks are modelled.
- Login, logout, e-mail login and verification in the staff service, and `GetWordText`/`Getwod`, are not part of this model. They are hard-coded lookups and calls into the code above.
- `shopspring/decimal` is exact integer cents. DECIMAL(10,2) overflow is the database's concern and is not modelled.
- LIKE is plain substring containment. Collation and case folding, and the unescaped `%` and `_` in the keyword, are not modelled.
- ResourceRepo.BumpSpec, ResourceRepo.IncrSpec: the three counters are unbounded `nat`. Their columns are INT UNSIGNED, so `+1` at 4294967295 fails in MySQL's strict mode. That overflow is the database's concern and is not modelled, so the model lets the call succeed.
- UserRepo.ClashKey, UserRepo.Conflict, UserRepo.FindId, StaffService.Uniqueness: strings are compared exactly, as under a binary collation. The source's connection uses utf8mb4 with MySQL's default collation, which is case-insensitive for `=` and for the unique indexes. There "Bob" clashes with a stored "bob"; in the model it does not. The same holds for `UserRepo.UserStore.Lookup`, `UserRepo.UserStore.ExistMatchesLookup` and the collisions in `CreateUser` and `UpdateUser`.
- TokenUtil.Ext: only '/' separates path elements, as on Unix. On Windows `filepath.Ext` also stops at '\\'. `CheckFileName` admits only letters after the last dot, so `StaffService.UpdateAvatar` cannot reach the difference.
- Strings are ASCII. Unicode white space and multi-byte characters are not modelled.
- The regular-expression engine is replaced by hand-written predicates. `IsEmailIff` proves the e-mail predicate equal to the pattern's language.
- The current time is a parameter. `bd.After(time.Now())` compares a UTC midnight with the injected instant, taken as UTC.
- The `updated_at` column is not modelled. The three counter increments also set it to `CURRENT_TIMESTAMP`, so they change that column as well as their counter.
- Clock.Parse: reads only the strict 19-character form `Format` writes. Go's parser also takes a one-digit hour and trailing fractional seconds.
- ResourceRepo.ResourceStore.GetResourceList: among rows with equal publish times, scan (id) order is kept. MySQL leaves that order unspecified.
- ResourceRepo.ResourceStore.GetByUserID: ties are ordered as in `GetResourceList`.
- ResourceRepo.ResourceStore.CreateResource: a refused insert (a driver or constraint error) is not modelled, since the table has no unique index besides the id.
- TokenUtil.Copy: the reader is assumed to fill each 32 KiB buffer, as `io.Copy` does with an in-memory source. A reader returning shorter chunks could fail at a different offset.
- StaffService.UpdateError: classifies by the index named in the error. The source searches the whole message text, which also contains the duplicated value. So a duplicate e-mail value containing "username" would be reported as a taken username.
- StaffService.UpdateAvatar: deleting the old file is the `removedOld` parameter. Deleting the new file after a failed database update, which only logs, is not modelled.
- StaffService.Register: the commit's own error, which the deferred handler assigns to a variable nobody returns, is not modelled.
- StaffService.GetUserByUuid: the message text of the two error kinds is not modelled, only which kind is returned.
- VerifyCode.CodeStore.Verify: the "验证数据异常" type-assertion failure cannot happen, since the store only ever holds code items.

## Findings

| source | as written | input that shows it | evidently intended | confidence | as-written member | corrected member |
|---|---|---|---|---|---|---|
| internal/service/staff_ser.go:259-284 | The deferred handler reads the outer `err`, but `CreateUser` and `CreateAccount` assign a shadowed `err`. So the transaction commits even when `CreateAccount` fails. | An admitted request whose uuid already has a wallet row: `Register` returns an error, and the new user row stays. | Both rows are written or neither is, and every user keeps a wallet. | not executed | StaffService.RegisterAsWritten | StaffService.Register |
| internal/service/staff_ser.go:245-256 | An omitted e-mail or phone is bound as "" instead of NULL, while the uniqueness checks skip omitted fields. | Two registrations without an e-mail: the second passes every check, then collides on the unique e-mail index. | An omitted field is stored as NULL, so an admitted request can only collide on its uuid. | not executed | StaffService.BlankEmailCollides | StaffService.AdmittedOnlyUuidClashes |
| internal/pkg/jwt/jwt.go:123-129 | The extension is accepted when it is any substring of ".jpg,.jpeg,.png". | "a.jp", "a." and "a.JPG," are accepted. | Only ".jpg", ".jpeg" and ".png" are accepted. | not executed | TokenUtil.LooseExtensions | TokenUtil.SaveListedAvatar |
