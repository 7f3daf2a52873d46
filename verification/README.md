# Verified model of Concord's tenancy, credentials, queues and data migrations

Concord keeps many organizations in one PostgreSQL database. This project models, in Dafny, the parts of it whose
correctness rests on more than one function, and proves what they are for:

* **Tenant binding** (`Connections`, `Sessions`, `SessionBinding`). One connection's role and `ccf.tenant_id` setting
  through transactions and savepoints; sessions, which give their connection back to the pool at every commit and
  rollback and take whichever one the pool hands out next; `unscoped_read`, `session_scope`, and Python code with
  exceptions running on top of them. `Worker` runs the batch loop of both job queues on that model.
* **Row-level security** (`RowSecurity`, `Isolation`). The policies of migrations 0010, 0044 and 0067 in SQL's
  three-valued logic, and tenant isolation over every interleaving of any number of connections.
* **The audit chain** (`AuditChain`). Appending, concurrent appends, verification, and exactly what verification
  detects.
* **Codecs and credentials** (`Base32`, `Base64Url`, `Decimal`, `Json`, `Auth`, `Mfa`). RFC 4648 as bit-group functions,
  compact JSON, decimal numerals, and on top of them session tokens, pending logins, password hashes, TOTP secrets,
  HOTP truncation, the drift-window loop and the one-time rule over whole runs.
* **Data-carrying migrations** (`Tables`, `Migration0040`, `FrameworkControls`, `Reevaluation`, `DocumentKey`,
  `Backfill`). Tables with NULLs, unique constraints with NULLS DISTINCT or NOT DISTINCT, partial unique indexes,
  window-function dedupe, and the nested-loop backfill, as methods that change a schema step by step.
* **Job queues** (`JobQueue`, `PrepPipeline`, `DrainLoop`). Claiming under SKIP LOCKED, crashes, late reports, reaping,
  dead-lettering, the stages of a preparation run, and the reap cadence of the worker loops.

Code that changes state is a class with methods, each proved equal to a specification function of the old state; the
properties are lemmas about those functions. HMAC, SHA-1, SHA-256, PBKDF2, `json.loads` and `int` (in 0080) are
parameters, so every result holds for whatever functions they are. Job bodies and request handlers are arbitrary
programs of statements, exceptions, savepoints, rebinds, and commits and rollbacks of the whole session; where a result
needs code that neither commits nor rolls back, it says so.

## Where code and documentation disagree

The model follows the code.

* `src/ccf/db.py:34-36` says the binding survives an intermediate COMMIT, and `src/ccf/db.py:40-42` that a caller that
  rolls back is "unscoped (bypass) afterward". Both are about a connection, and callers hold a session: at either one the
  session's connection goes back to the pool, and its next statement runs under whatever binding the next connection
  was left with (`NextStatementRunsAsHandedOut`; `tests/test_audit_rbac.py:213-217` remarks on it).
  `CommitThenRefreshExample` and `RollbackOntoBoundExample` are runs in which the sentences fail. `AlwaysRunsForIff` is
  the exact condition for a session: all its statements run for one tenant, whatever the pool hands out, if and only if
  every transaction binds that tenant before its first statement and no other binding is in force at a statement.
* Even on one connection the second sentence fails: a rollback restores the pair held when the transaction began.
  `RollbackReturnsToLastCommit` has the exact condition for a connection, `PooledRollbackExample` and
  `CommittedRollbackExample` two runs.
* `src/ccf/api/audit.py:7` says any later edit or deletion breaks the chain. `EditIsDetected` and `DeletionIsDetected`
  give the exact conditions. The sentence fails for deleting the newest rows (`IntactPrefix`), for changing the
  organization or the time of any row, which are outside the hash (`ScopeAndTimeEditUnnoticed`), for
  changing the newest row and marking it as older than the chain (`NewestUnchainedUnnoticed`), and for changing the
  newest row and its hash, which needs no key (`NewestRehashedUnnoticed`).
* `src/ccf/identity/mfa_service.py:121-125` says writing the spent step before answering is what enforces the one-time
  rule. The row is read without a lock and written without a guard, so the rule holds exactly for requests that do not
  overlap (`OneTimeIffSerial`); `OverlapExample` is the run in which one code is accepted twice.
* The dedupe of 0046 is described as collapsing rows "the new unique constraint would reject". The rows it deletes all
  have a NULL organization, so that constraint would accept them (`UpgradeDedupeIsNotMinimal`); it is 0047's index that
  rejects them.

## Model

| member | source | states |
|---|---|---|
| `Connections.BoundActsFor` | src/ccf/db.py:49-57 | after binding, the setting read back through the `integer` cast is exactly the tenant bound (none for the empty string), and the role is `ccf_app` exactly for a tenant |
| `Connections.BypassOnlyWhenUnset` | migrations/versions/0010_row_level_security.py:78-82 | the setting reads as "no tenant" only when it was never set or is empty; any other text that is no numeral in range is an error |
| `Connections.RoleFollowsTenant` | src/ccf/db.py:23-57 | over every sequence of binds, statements, errors, savepoints, releases, rollbacks and commits on one connection, the role is `ccf_app` exactly when a tenant is set, now and at every savepoint |
| `Connections.SavepointRestores` | src/ccf/db.py:34-45 | whatever happens inside a savepoint, rolling back to it restores the binding and data held when it was taken and clears the error |
| `Connections.RollbackRestores` | src/ccf/db.py:36-39 | a full rollback restores the binding and data the connection held when its transaction began, whatever ran in between |
| `Connections.ReleaseKeepsAll` | src/ccf/prep/jobs.py:316-318 | releasing a savepoint keeps the data and binding of everything done since, and leaves the transaction's other frames |
| `Connections.ErrorIsFinal` | src/ccf/db.py:79-80 | after an erroneous statement nothing in the transaction takes effect any more, and its COMMIT is a rollback |
| `Connections.CommitKeepsBinding` | src/ccf/db.py:34-36 | on one connection: a binding overrides whatever was inherited and survives COMMIT (the session that made it may go on to another connection) |
| `Connections.RollbackReturnsToLastCommit` | src/ccf/db.py:34-42 | on one connection, over every run, intermediate commits included: a full rollback goes back to the data and binding of its last COMMIT (or those it came with), and the connection is unscoped if and only if it was unscoped then |
| `Connections.PooledRollbackExample` | src/ccf/db.py:30-42 | on one connection: bind A, commit, bind B, roll back, and it acts for A, not unscoped |
| `Connections.CommittedRollbackExample` | src/ccf/db.py:34-42 | the same on a connection that came unscoped: bind A, commit, work on, roll back |
| `SessionBinding.NextStatementRunsAsHandedOut` | src/ccf/db.py:120-126 | after a commit or a rollback of any session, its next statement runs under exactly the binding the pool's next connection was left with |
| `SessionBinding.CommitThenRefreshExample` | src/ccf/api/routes/cr26.py:266-267 | bind A, write, commit, refresh: the refresh runs as the organization another connection was left bound to |
| `SessionBinding.RollbackOntoBoundExample` | src/ccf/db.py:40-42 | on a connection that came unscoped: bind, roll back, read, and the read runs as another organization |
| `SessionBinding.StatementsRunFor` | src/ccf/db.py:23-57 | if at every statement the binding in force is one to this tenant made in this transaction, then on every pool every statement runs for it, through savepoints, errors and rollbacks to savepoints |
| `SessionBinding.AlwaysRunsForIff` | src/ccf/db.py:23-57 | for every sequence of session calls and every tenant, scoped or unscoped: all statements run for that tenant whatever the pool hands out, if and only if that condition holds |
| `Sessions.UnscopedRestores` | src/ccf/db.py:60-93 | for every body, raising or not, nested to any depth, even committing or rolling back the session: after `unscoped_read` the session acts for exactly the tenant it found, on whatever connection it then holds, or an exception is propagated on a session that refuses further statements |
| `Sessions.StaysUnscoped` | src/ccf/db.py:60-80 | code that neither binds, commits nor rolls back, however nested, keeps an unscoped transaction unscoped and runs every statement unscoped |
| `Sessions.UnscopedBodyRunsUnscoped` | src/ccf/db.py:60-93 | every statement of such a body of `unscoped_read` runs unscoped, whatever the session was clamped to |
| `Sessions.ScopeKeepsLastCommit` | src/ccf/db.py:141-152 | for every body of `session_scope`: if it returns, what it left is committed; if it raises or swallowed a database error, the data are those of its own last commit, or those found if it made none; the connection goes back bound as the body left it, or on a rollback as it was handed out |
| `Sessions.RollbackLeavesLastCommit` | src/ccf/cli.py:342-345 | `session.rollback()` after any code at any depth leaves no open transaction, makes nothing durable, and the data are those of the last commit |
| `Sessions.ExecCommitsNothing` | src/ccf/cli.py:340-345 | code that calls no `session.commit()`, whatever else it does, makes nothing durable |
| `Sessions.DryRunLeavesNothing` | src/ccf/cli.py:331-345 | `session_scope` around such work and a rollback leaves the data and the commits exactly as found |
| `Sessions.RealRunLeavesWork` | src/ccf/cli.py:331-341 | and ended by a commit leaves exactly what the work wrote, or nothing of it if it failed |
| `Sessions.AbortedRefuses` | src/ccf/db.py:79-80 | a database error aborts the transaction, and from then on code that neither commits nor rolls back changes nothing at all, however it handles the errors |
| `Sessions.ExecKeepsOrEnds` | src/ccf/assessment/engine/evaluate.py:412-421 | whatever code runs inside savepoint blocks, it leaves the frames below as they were, or it has ended the whole transaction |
| `Sessions.Session.SetSessionTenant` | src/ccf/db.py:23-57 | the method refines the binding step, and fails on an aborted transaction |
| `Sessions.Session.UnscopedRead` | src/ccf/db.py:60-93 | the save, body and restore-in-finally refine the specification of `unscoped_read` |
| `Sessions.Session.SessionScope` | src/ccf/db.py:141-152 | bind, run, commit or roll back, refining the specification of `session_scope` |
| `Sessions.Session.BeginNested` | src/ccf/prep/jobs.py:316-318 | the savepoint bracket refines its specification: rolled back on an exception, released otherwise |
| `Worker.GuardedDrive` | src/ccf/prep/jobs.py:316-327 | a failing job body that neither commits nor rolls back leaves only the failure record, written under the binding that preceded the savepoint; a succeeding one leaves its own writes |
| `Worker.JobIsSurvived` | src/ccf/assessment/engine/jobs.py:275-304 | whatever a job's code does, even committing or rolling back the session, and whatever the pool hands out: the worker survives it and ends unscoped, and the code starts under the job's own tenant |
| `Worker.LoadRunsAs` | src/ccf/assessment/engine/jobs.py:268-280 | the read of a job's row runs unscoped after another job; right after the claim's commit it runs under whatever binding the next connection was left with |
| `Worker.JobIsContained` | src/ccf/assessment/engine/jobs.py:275-304 | for code that neither commits nor rolls back: on failure all its writes are gone and the failure is recorded under the job's own tenant, on success its writes are kept, and either way exactly that is made durable by the job's one commit |
| `Worker.SessionRollbackLosesBinding` | src/ccf/assessment/engine/service.py:441-446 | the named trap, for every job of a batch: code that calls a bare `session.rollback()` in its savepoint and fails has the whole transaction undone, and its failure recorded on the data from before it, under whatever binding the next connection was left with |
| `Worker.ConnectionReturnsBound` | src/ccf/prep/jobs.py:315-329 | a job's commit gives its connection back bound to the job's organization |
| `Worker.SecondJobRecordsAsFirst` | src/ccf/prep/jobs.py:309-329 | so when that connection is handed out again, the failure of the next job that falls into the trap is recorded as the previous job's organization |
| `Worker.BindingInsideSavepointIsLost` | src/ccf/prep/jobs.py:241-252 | with the binding moved inside the savepoint, the failure record would run under the binding from before it, between jobs unscoped |
| `Worker.JobsAreSurvived` | src/ccf/prep/jobs.py:309-333 | after every batch of jobs, whatever their code did, the session is healthy and unscoped |
| `Worker.DriveJob` | src/ccf/assessment/engine/jobs.py:275-304 | one iteration leaves the state of the job's program and classifies it as failed exactly when its code raised or aborted the transaction |
| `Worker.RunOnce` | src/ccf/assessment/engine/jobs.py:248-309 | the batch loop commits the claim first, then ends in the state of the jobs run one after another, each on whatever connections the pool hands out, and counts finished and failed jobs exactly |
| `Worker.CountsAddUp` | src/ccf/assessment/engine/jobs.py:272-309 | every claimed job is counted once: finished, failed or neither |
| `RowSecurity.SubqueriesAreOwnership` | migrations/versions/0010_row_level_security.py:21-35 | the one-hop and two-hop subqueries select exactly the parents the tenant owns through the chain |
| `RowSecurity.PolicyIsOwnership` | migrations/versions/0010_row_level_security.py:83-90 | for every row of every policy shape: admitted if and only if no tenant is set, or the tenant owns it through some chain of parents, or it is NULL-visible |
| `RowSecurity.PoliciesNest` | migrations/versions/0010_row_level_security.py:83-90 | the subqueries run under the parents' own policies, and that changes no policy's truth value |
| `RowSecurity.ExtensionOnlyAdds` | migrations/versions/0067_capability_ontology.py:58-85 | the extended evidence policy admits what the original admits plus the rows of the tenant's own capabilities, and agrees with it on rows without a capability |
| `RowSecurity.OriginalHidesCapabilityRows` | migrations/versions/0067_capability_ontology.py:65-71 | under the original policy a capability-only row is admitted for no tenant |
| `RowSecurity.SharedRows` | migrations/versions/0067_capability_ontology.py:78-85 | two tenants are admitted to one row exactly for NULL-scope audit rows and evidence straddling both tenants' parents |
| `Isolation.ClampedStatementMisses` | migrations/versions/0010_row_level_security.py:83-90 | a statement clamped to one of the writers affects no row whose derived owners exclude them |
| `Isolation.StepKeepsIntact` | migrations/versions/0010_row_level_security.py:83-90 | each step of any connection keeps the rows out of the writers' reach, in the committed data and in every transaction and savepoint |
| `Isolation.TenantsAreIsolated` | migrations/versions/0010_row_level_security.py:21-90 | over every interleaving of bindings, statements, savepoints, rollbacks and commits, rows none of the writers owns stay present, unchanged, with the same derived owners, and look the same to every connection |
| `Isolation.WithinReachIffOwned` | migrations/versions/0010_row_level_security.py:83-90 | the boundary is exact: a clamped session meeting no lock can delete a row if and only if its tenant owns it or it is NULL-visible |
| `Isolation.WrittenRowsAreOwned` | migrations/versions/0010_row_level_security.py:87-90 | USING and WITH CHECK together: a row a clamped session writes was and becomes its own tenant's or NULL-visible |
| `Isolation.InsertTakesEffectIff` | migrations/versions/0010_row_level_security.py:87-90 | an insert meeting no lock takes effect if and only if the id is free, the row has its table's shape and the session may touch it; then the session sees exactly that row more, otherwise nothing changed and its transaction is aborted |
| `Isolation.UpdateTakesEffectIff` | migrations/versions/0010_row_level_security.py:87-90 | an update meeting no lock changes exactly the rows the session may touch, each to its new value; if one new row fails, none is changed and the transaction is aborted |
| `Isolation.CommitPublishes` | src/ccf/db.py:141-152 | COMMIT makes durable exactly what the transaction wrote, key by key, and disturbs no other connection |
| `Isolation.CommittedWriteIsSeen` | src/ccf/db.py:141-152 | whatever other connections do between an admitted write and its COMMIT, afterwards every connection not itself writing the row sees it as written, or gone |
| `Isolation.AbortedCommitPublishesNothing` | src/ccf/db.py:36-39 | the COMMIT of an aborted transaction changes nothing |
| `Isolation.RolledBackWriteIsUnseen` | src/ccf/db.py:36-39 | a write inside a savepoint that is rolled back is gone, whatever other connections did meanwhile |
| `Isolation.BindingTakesEffect` | src/ccf/db.py:49-57 | binding a tenant takes effect on that connection, changes nothing it sees stored, and touches no other |
| `Isolation.RunsStayOrderly` | migrations/versions/0067_capability_ontology.py:258-263 | over every interleaving no two open transactions have written the same row, every row fits its table, and no connection ever sees an evidence row without a parent |
| `AuditChain.VerifyChain` | src/ccf/api/routes/audit.py:100-124 | the walk reports ok exactly when every link holds, and otherwise the id of the first broken row with the right counts |
| `AuditChain.ChainedIs` | src/ccf/api/routes/audit.py:103-124 | the reported count is the number of rows that carry a hash |
| `AuditChain.IntactConcat` | src/ccf/api/routes/audit.py:102-123 | a log is intact exactly when its first part is and the rest continues from the hash that part ends in |
| `AuditChain.EditIsDetected` | src/ccf/api/audit.py:5-7 | replacing a row by any other goes unnoticed if and only if the new row links on and either no chained row follows or it hands on the same hash |
| `AuditChain.ContentEditIsDetected` | src/ccf/api/audit.py:5-7 | a change of a chained row's content alone goes unnoticed if and only if the hash collides |
| `AuditChain.ScopeAndTimeEditUnnoticed` | src/ccf/api/audit.py:125-129 | an edit that always goes unnoticed: the organization and the time of any row |
| `AuditChain.NewestUnchainedUnnoticed` | src/ccf/api/routes/audit.py:105-106 | another: the newest row with any content and no hash |
| `AuditChain.NewestRehashedUnnoticed` | src/ccf/api/audit.py:103-106 | another: the newest row with any content and the hash that goes with it |
| `AuditChain.DeletionIsDetected` | src/ccf/api/audit.py:5-7 | deleting a run of rows goes unnoticed if and only if no chained row follows it or the same hash is carried on both sides |
| `AuditChain.IntactPrefix` | src/ccf/api/audit.py:5-7 | the input on which the promise fails: any number of newest rows can be dropped and the rest still verifies |
| `AuditChain.AppendLinks` | src/ccf/api/audit.py:175-196 | an appended row keeps the log intact if and only if the head it read is the hash the chain ends in |
| `AuditChain.ClampedReadForks` | src/ccf/api/audit.py:153-164 | a head read through the tenant clamp breaks the chain exactly when the newest visible row does not carry the newest hash |
| `AuditChain.UnlockedAppendsFork` | src/ccf/api/audit.py:44-55 | two appends that read the same head break the chain unless the hash repeats |
| `AuditChain.StepKeepsOneChain` | src/ccf/api/audit.py:109-196 | recording under the lock, savepoints, rolling back to them, committing and rolling back each keep committed plus pending rows one chain in id order |
| `AuditChain.RunsKeepOneChain` | src/ccf/api/audit.py:44-76 | over every interleaving of any number of recording transactions, with savepoints and rollbacks to them, the committed log verifies |
| `AuditChain.RecordedIsLogged` | src/ccf/api/audit.py:175-196 | an event recorded by a transaction that commits is in the log for good, whatever other transactions do: next in order, with its own time, organization and content, naming the hash of the row before it or sixty-four zeros |
| `AuditChain.RolledBackIsGone` | src/ccf/api/audit.py:57-60 | what a transaction recorded and rolled back is nowhere, and the lock is free |
| `AuditChain.SavepointRestoresRows` | src/ccf/api/audit.py:57-60 | rolling back to a savepoint takes away exactly what was recorded since; a transaction that took the lock since gives it up |
| `AuditChain.VisibleToIs` | migrations/versions/0044_audit_log_org_rls.py:33-36 | through the clamp a tenant sees exactly its own rows and the platform-wide ones |
| `Decimal.ValueOfPrint` | src/ccf/db.py:53-56 | a printed number is all digits, has no leading zero unless it is zero, and reads back as itself |
| `Decimal.ParsePrinted` | src/ccf/api/login_service.py:160-168 | `int(str(n)) == n` for every integer |
| `Decimal.PrintPlaces` | src/ccf/mfa.py:70 | counted from the right, place i of a numeral holds the digit of the i-th power of ten |
| `Decimal.PrintOfValue` | src/ccf/auth.py:110 | a numeral without a leading zero is the one printed for its value |
| `Decimal.TruncateTowardZero` | src/ccf/auth.py:106 | `int()` of a time is its whole part, toward zero |
| `Decimal.ZFillValue` | src/ccf/mfa.py:70 | zero-filling reaches exactly the width and keeps the number |
| `Text.StripSplits` | src/ccf/mfa.py:53 | stripping takes off whitespace at both ends, all of it, and nothing else |
| `Text.UpperLetters` | src/ccf/mfa.py:53 | upper case changes the twenty-six letters, each to its own capital |
| `BitGroups.UngroupGroup` | src/ccf/mfa.py:43 | cutting bits into groups and joining them again gives the bits followed only by filler zeros |
| `BitGroups.DecodeEncode` | src/ccf/mfa.py:43-54 | regrouping octets into symbols and back is the identity at every length |
| `BitGroups.EncodeCount` | src/ccf/mfa.py:54 | the number of symbols for n octets, exactly enough to carry their bits |
| `BitGroups.SymbolsSpellOctets` | src/ccf/mfa.py:43 | symbols and octets spell the same number, most significant first, but for the zero bits that fill the last symbol: there is only one encoding |
| `BitGroups.UnpaddedPadding` | src/ccf/mfa.py:43 | stripping `=` takes off exactly the padding |
| `Base32.DecodeRestored` | src/ccf/mfa.py:41-54 | base32, stripped, with padding restored by `-len % 8`, decodes to the original octets at every length (section 6 of RFC 4648) |
| `Base32.SymbolIs` | src/ccf/mfa.py:43 | the alphabet of table 3 of RFC 4648 |
| `Base32.EncodingShape` | src/ccf/mfa.py:43-54 | text in whole quanta of eight, with six, four, three, one or no `=` by the number of octets modulo five |
| `Base32.DecodeRefuses` | src/ccf/mfa.py:54 | text of a wrong length or with a foreign character is refused |
| `Base64Url.DecodeRestored` | src/ccf/auth.py:110-134 | the same for URL-safe base64 with `-len % 4` (section 5 of RFC 4648) |
| `Base64Url.SymbolIs` | src/ccf/auth.py:111 | the URL-safe alphabet of table 2 of RFC 4648 |
| `Base64Url.EncodingShape` | src/ccf/auth.py:111-133 | text in whole quanta of four, with two, one or no `=` by the number of octets modulo three |
| `Base64Url.DecodeRefuses` | src/ccf/auth.py:132-136 | text of a wrong length or with a foreign character is refused |
| `Json.LoadsDumps` | src/ccf/auth.py:107-134 | printing an integer dict compactly and reading it gives the dict back, later duplicates winning |
| `Json.LoadsIsExact` | src/ccf/auth.py:134-138 | only the compact text of an integer dict is read, and as that dict: nothing looser, but `-0` for `0` |
| `Auth.ReadMintedPayload` | src/ccf/auth.py:106-143 | the claims survive printing, base64url, stripping, restoring and parsing, with an omitted `sv` read as zero |
| `Auth.ClaimsText` | src/ccf/auth.py:107-110 | the JSON inside a token, member by member, with `sv` left out when it is zero |
| `Auth.ReadMintedUnder` | src/ccf/auth.py:91-143 | a token read under any key yields exactly its user and version when both keys sign the payload alike and its hours, counted in seconds, have not passed, and nothing otherwise |
| `Auth.ReadSigned` | src/ccf/auth.py:91-143 | the round trip in seconds: the user and version up to and including `int(minted) + ttl_hours * 3600`, and nothing after |
| `Auth.AcceptedIsSigned` | src/ccf/auth.py:125-131 | an accepted token is a dot-free payload, a dot and that payload's own signature |
| `Auth.AcceptedIsLive` | src/ccf/auth.py:132-143 | an accepted token's payload is a dict naming the user, with an expiry that has not passed and the version it names, or 0 |
| `Auth.AcceptedTokenIsUnique` | src/ccf/auth.py:125-131 | a payload has at most one accepted token |
| `Auth.BumpRevokes` | src/ccf/cli.py:1044-1046 | after any number of session-version bumps a token authenticates if and only if there was none and its seconds have not passed |
| `Auth.ReadMintedPending` | src/ccf/api/login_service.py:144-175 | a pending login reads back exactly within its 300 seconds (and one second of skew), although the inner token lives an hour |
| `Auth.PendingText` | src/ccf/api/login_service.py:121-161 | a pending token is its stamp and a session token signed with the digest of a fixed label under the session key |
| `Auth.AcceptedPendingIsSigned` | src/ccf/api/login_service.py:164-175 | whatever is accepted as a pending token bears a recent stamp and that key's signature |
| `Auth.PendingIsNotASession` | src/ccf/api/login_service.py:127-141 | a pending token presented as a session is refused under every key, hex digests containing no dot |
| `Auth.FromHexHex` | src/ccf/auth.py:41-50 | hex round trip, and no `$` in hex |
| `Auth.HexAt` | src/ccf/auth.py:42 | two lower-case digits an octet, the high half first |
| `Auth.SplitJoined` | src/ccf/auth.py:49 | splitting undoes joining at `$`, whatever the number of parts |
| `Auth.VerifiesIff` | src/ccf/auth.py:45-53 | what a stored value must be to verify an attempt: four parts, at least one round, a salt in hex and the digest of the attempt's key; a missing or malformed value verifies nothing |
| `Auth.VerifyHashed` | src/ccf/auth.py:39-53 | a stored hash verifies an attempt if and only if both derive the same key from the salt in 210000 rounds |
| `Mfa.DecodeTyped` | src/ccf/mfa.py:46-54 | a secret decodes to its octets from any retyping with spaces anywhere, either case and whitespace around it |
| `Mfa.DecodeShown` | src/ccf/mfa.py:121-128 | reading the grouped display back in either case gives the octets |
| `Mfa.FormatAt` | src/ccf/mfa.py:128 | the display keeps every character in order, with a space after every fourth |
| `Mfa.BadSecretRefused` | src/ccf/mfa.py:53-54 | a secret with a character that is no base32 symbol is an error |
| `Mfa.RecoveryCodeShape` | src/ccf/mfa.py:141-142 | a recovery code is two halves of eight symbols joined by a dash |
| `Mfa.RecoveryCodeTyped` | src/ccf/mfa.py:137-147 | a recovery code retyped with spaces, either case and surrounding whitespace normalises to its 16 symbols |
| `Mfa.SecretTextInjective` | src/ccf/mfa.py:41-43 | different octets give different secrets and recovery codes |
| `Mfa.TruncatedOctets` | src/ccf/mfa.py:65-69 | the slice is in range and the word is its four octets, most significant first, without the top bit of the first, stated octet by octet (section 5.3 of RFC 4226) |
| `Mfa.Rfc4226Example` | src/ccf/mfa.py:65-70 | the worked example of section 5.4 of RFC 4226 gives 0x50ef7f19 and 872921 |
| `Mfa.CodeShape` | src/ccf/mfa.py:70 | a code is exactly the asked number of digits and reads back as the word modulo the power of ten |
| `Mfa.CounterOctetsSpell` | src/ccf/mfa.py:64 | the eight octets of a counter spell it, most significant first |
| `Mfa.HotpIs` | src/ccf/mfa.py:62-70 | the code of a counter is six digits that read back as the truncated word of the MAC of that counter's octets under the decoded secret, modulo a million; a bad secret or counter is an error |
| `Mfa.TimestepIs` | src/ccf/mfa.py:57-59 | steps are thirty seconds long and change on the whole half-minute |
| `Mfa.WantedTyped` | src/ccf/mfa.py:92-94 | what is typed is a code exactly when, spaces and surrounding whitespace aside, it is six digits |
| `Mfa.Verify` | src/ccf/mfa.py:73-103 | the early returns and the loop refine the specification |
| `Mfa.TryWindow` | src/ccf/mfa.py:96-103 | the drift-window loop, with its `continue` and early return, refines the scan |
| `Mfa.ScanIsLeast` | src/ccf/mfa.py:96-103 | the scan answers with the least unspent matching step, and with nothing exactly when there is none |
| `Mfa.VerifiedIsLeastMatch` | src/ccf/mfa.py:92-103 | for a readable secret `verify` returns the least unspent matching step of the window, and nothing exactly when the code is malformed or no such step exists |
| `Mfa.GenuineCodeAccepted` | src/ccf/mfa.py:92-103 | the code generated at any unspent step of the window is accepted |
| `Mfa.AdjacentCodeAccepted` | src/ccf/identity/mfa_service.py:131-136 | a request accepts the unspent code of the current step, the one before or the one after |
| `Mfa.Credential.SpendStep` | src/ccf/identity/mfa_service.py:130-136 | checked against the step that was read, the step is stored exactly when the code is reported good; refusals and errors leave it alone |
| `Mfa.Credential.VerifyCode` | src/ccf/identity/mfa_service.py:120-136 | a request on its own: read, check against what was read, store |
| `Mfa.AcceptedIncrease` | src/ccf/models_identity.py:135-138 | over every run in which no request spends after another spent between its read and its spend, accepted steps strictly increase past the stored one, so none is accepted twice, and each lies in the window of an attempt (section 5.2 of RFC 6238) |
| `Mfa.AcceptancesBounded` | src/ccf/mfa.py:35-38 | in such a run at most step(b) - step(a) + 3 codes are accepted between two moments, however many are tried |
| `Mfa.OneTimeIffSerial` | src/ccf/identity/mfa_service.py:120-136 | for every schedule of reads and spends by any number of requests: no step can be accepted twice, whatever codes are presented and when, if and only if no request spends after another spent between its read and its spend |
| `Mfa.OverlapExample` | src/ccf/identity/mfa_service.py:127-135 | the run in which the rule fails: two requests read before either stores, and one code is accepted twice |
| `Tables.RowNumberAboveOne` | migrations/versions/0040_unique_natural_keys.py:73-85 | the window function exceeds one exactly when a smaller id shares the partition |
| `Tables.DedupeKeepsLeast` | migrations/versions/0040_unique_natural_keys.py:73-85 | the survivors are exactly the rows outside the WHERE clause and the least id of every partition, unchanged |
| `Tables.DeletedHasSurvivor` | migrations/versions/0040_unique_natural_keys.py:73-85 | every deleted row has a surviving row of smaller id in its partition |
| `Tables.DedupeEstablishes` | migrations/versions/0040_unique_natural_keys.py:73-91 | the survivors satisfy any constraint on the partition columns that the WHERE clause covers |
| `Tables.DedupeIdempotent` | migrations/versions/0040_unique_natural_keys.py:73-85 | deduping twice is deduping once |
| `Tables.ConflictIff` | migrations/versions/0040_unique_natural_keys.py:91 | two rows conflict exactly when the index concerns both and they agree on every column, in a NULL only if NULLs are equal |
| `Tables.ColumnChangeSatisfies` | migrations/versions/0062_closure_reevaluation.py:50-58 | adding or dropping a column outside a constraint changes nothing about it |
| `Tables.Schema.DedupeTable` | migrations/versions/0040_unique_natural_keys.py:73-85 | the DELETE changes one table and keeps every constraint in force |
| `Tables.Schema.CreateUnique` | migrations/versions/0040_unique_natural_keys.py:91 | adding a constraint succeeds exactly when the name is free and the rows satisfy it |
| `Migration0040.SurvivorsAreUnique` | migrations/versions/0040_unique_natural_keys.py:88-91 | whatever the table held, the survivors satisfy the new constraint under NULLS DISTINCT |
| `Migration0040.DeletedRowsConflict` | migrations/versions/0040_unique_natural_keys.py:73-91 | every deleted row conflicts, under the new constraint, with a survivor of smaller id: nothing acceptable is lost |
| `Migration0040.UniqueTableUntouched` | migrations/versions/0040_unique_natural_keys.py:73-91 | a table that already satisfies the constraint loses no row |
| `Migration0040.DeletedIff` | migrations/versions/0040_unique_natural_keys.py:73-85 | a row is deleted exactly when a row of smaller id agrees with it on every key column and the WHERE clause concerns both |
| `Migration0040.DifferentRowsSurvive` | migrations/versions/0040_unique_natural_keys.py:39-70 | in each of the five tables, two rows that differ in any one of its key columns both survive |
| `Migration0040.NaturalKeysAreGuarded` | migrations/versions/0040_unique_natural_keys.py:39-70 | all five keys meet the conditions of these results, on distinct tables and constraint names |
| `Migration0040.EachTableDeduped` | migrations/versions/0040_unique_natural_keys.py:88-91 | after the loop each keyed table is its old contents deduped on its own key |
| `Migration0040.EachConstraintAdded` | migrations/versions/0040_unique_natural_keys.py:88-91 | after the loop each constraint is in force and all earlier ones still are |
| `Migration0040.Upgrade` | migrations/versions/0040_unique_natural_keys.py:88-91 | the loop never fails, whatever the tables hold, and yields exactly those tables and constraints |
| `Migration0040.UpgradeNaturalKeys` | migrations/versions/0040_unique_natural_keys.py:39-91 | the same for the five keys as shipped |
| `FrameworkControls.TogetherNullsEqual` | migrations/versions/0047_framework_controls_global.py:52-57 | 0046's constraint and 0047's partial index together are uniqueness with NULL organizations equal |
| `FrameworkControls.KeysAre` | migrations/versions/0046_framework_controls_org_rls.py:91-94 | what the old key, the new one and the partial index forbid, column by column |
| `FrameworkControls.OldKeyImpliesBoth` | migrations/versions/0046_framework_controls_org_rls.py:84-94 | a table holding the old key satisfies both |
| `FrameworkControls.UpgradeDeletesNothing` | migrations/versions/0046_framework_controls_org_rls.py:84-89 | neither upgrade dedupe deletes a row of a table holding the old key |
| `FrameworkControls.UpgradeDedupeIsNotMinimal` | migrations/versions/0046_framework_controls_org_rls.py:84-94 | any row 0046's upgrade dedupe would delete is one its own constraint accepts |
| `FrameworkControls.GlobalDedupeEstablishes` | migrations/versions/0047_framework_controls_global.py:35-57 | after 0047's dedupe the partial index holds, whatever the table held |
| `FrameworkControls.DowngradeEstablishes` | migrations/versions/0046_framework_controls_org_rls.py:110-116 | after the downgrade's dedupe the old key holds, whatever the table held |
| `FrameworkControls.Upgrade` | migrations/versions/0046_framework_controls_org_rls.py:70-94 | 0046 then 0047 never fail from the old revision, lose no row and leave NULLs-equal uniqueness |
| `FrameworkControls.Downgrade` | migrations/versions/0046_framework_controls_org_rls.py:104-121 | undoing both never fails, keeps the least id per old key and puts the old key back in force |
| `FrameworkControls.RoundTrip` | migrations/versions/0046_framework_controls_org_rls.py:70-121 | up and down again is the identity on every table of the old revision |
| `Reevaluation.UpgradeEstablishes` | migrations/versions/0062_closure_reevaluation.py:49-84 | a table holding the flat key satisfies both partial indexes after the new column |
| `Reevaluation.DowngradeEstablishes` | migrations/versions/0062_closure_reevaluation.py:97-111 | the downgrade deletes exactly the rows with a source POA&M, and the flat key then holds |
| `Reevaluation.Upgrade` | migrations/versions/0062_closure_reevaluation.py:49-84 | the swap never fails from the old revision and loses no row |
| `Reevaluation.Downgrade` | migrations/versions/0062_closure_reevaluation.py:97-113 | the downgrade never fails from the new revision and ends with the flat key in force |
| `Reevaluation.IndexedCounts` | migrations/versions/0062_closure_reevaluation.py:69-84 | the indexes mean at most one first-pass row per assessment and control, and one re-evaluation per POA&M |
| `Reevaluation.KeysAre` | migrations/versions/0062_closure_reevaluation.py:66-84 | what the flat key and the two indexes forbid, column by column |
| `Reevaluation.FirstPassRowsSurvive` | migrations/versions/0062_closure_reevaluation.py:1-28 | over every run of inserts and POA&M deletions the indexes hold, and first-pass rows are never lost or changed, downgrade included |
| `Reevaluation.PoamDeletableIff` | migrations/versions/0062_closure_reevaluation.py:50-84 | deleting a POA&M succeeds if and only if its re-evaluation, source set to NULL, does not collide with a first-pass row |
| `DocumentKey.UnkeyedTablesAgree` | migrations/versions/0081_cr26_document_key.py:19-21 | on tables without keyed rows the new constraint says exactly what the old one said |
| `DocumentKey.AcceptedIff` | migrations/versions/0081_cr26_document_key.py:103-109 | a document is accepted if and only if no other has its system, kind and key, no key counting as a key |
| `DocumentKey.KeysAre` | migrations/versions/0081_cr26_document_key.py:102-109 | what the old key and the new one forbid, column by column |
| `DocumentKey.PlainUniqueAcceptsDuplicates` | migrations/versions/0081_cr26_document_key.py:23-38 | without NULLS NOT DISTINCT every second unkeyed document would be accepted |
| `DocumentKey.OneUnkeyedDocument` | migrations/versions/0081_cr26_document_key.py:96-109 | over every run of inserts a system and kind have at most one unkeyed document beside any keyed ones |
| `DocumentKey.Upgrade` | migrations/versions/0081_cr26_document_key.py:96-109 | the upgrade never fails from a state satisfying the old key and loses no row |
| `DocumentKey.Downgrade` | migrations/versions/0081_cr26_document_key.py:112-131 | it raises, with the count and no change, if and only if a keyed row exists; otherwise the old key is back with no row deleted |
| `Backfill.StrippedIsNotSqlBlank` | migrations/versions/0080_poam_acceptance_rationale.py:67-72 | a stripped Python-non-blank text is non-blank to SQL's `btrim` |
| `Backfill.Poams.BackfillFromAviDocuments` | migrations/versions/0080_poam_acceptance_rationale.py:91-139 | the nested loops, skipping malformed bodies and entries, apply exactly the qualifying entries' writes in order |
| `Backfill.FilledIsSettled` | migrations/versions/0080_poam_acceptance_rationale.py:127-139 | applying writes one by one equals giving each blank row the first write meant for it |
| `Backfill.OwnDocumentDecides` | migrations/versions/0079_cr26_documents.py:76 | with one AVI document per system, a POA&M's text comes from its own system's document only |
| `Backfill.BackfilledRow` | migrations/versions/0080_poam_acceptance_rationale.py:91-139 | no row appears, goes or moves; non-blank rows are untouched; blank ones take the stripped first qualifying entry of their own system's document, if any |
| `Backfill.FilledFromFirstEntry` | migrations/versions/0080_poam_acceptance_rationale.py:75-139 | from the stored JSON: a blank POA&M gets exactly the stripped rationale of the first entry of its own system's document, object or text, that names it and carries a rationale not all whitespace |
| `Backfill.UntouchedIff` | migrations/versions/0080_poam_acceptance_rationale.py:75-139 | and stays as it was if and only if that document has no such entry |
| `Backfill.FetchOrderIrrelevant` | migrations/versions/0080_poam_acceptance_rationale.py:96-99 | the result does not depend on the order in which documents are fetched |
| `Backfill.BackfillIdempotent` | migrations/versions/0080_poam_acceptance_rationale.py:127-139 | a second run changes nothing |
| `JobQueue.JobTable.ReapStaleJobs` | src/ccf/queue.py:170-220 | the two UPDATEs requeue exactly the stale jobs below the cap, dead-letter exactly those at or past it, and report both counts |
| `JobQueue.StepKeepsLocksDisjoint` | src/ccf/queue.py:139-164 | every step keeps each locked row pending and locked by one worker |
| `JobQueue.AttemptsCountClaims` | src/ccf/queue.py:153-162 | over every interleaving of selections, claims, crashes, late reports and reaps no two workers hold one job, and `attempts` grows by exactly the number of claims |
| `JobQueue.OldestIsPicked` | src/ccf/queue.py:141-146 | the strictly oldest available job is among those picked |
| `JobQueue.SelectsUpToLimit` | src/ccf/queue.py:139-149 | a claim takes as many available jobs as there are up to its limit, and no younger one while an older is left |
| `JobQueue.ClaimRecords` | src/ccf/queue.py:154-163 | the claim marks exactly the selected jobs: claimed by this worker, now, one attempt more |
| `JobQueue.CrashBeforeClaim` | src/ccf/queue.py:139-164 | a worker that dies before its claim commits leaves the queue exactly as it was |
| `JobQueue.ReapedIff` | src/ccf/queue.py:186-211 | a reap acts on a claimed job exactly when it was claimed at least the threshold, and a minute, ago, and how |
| `JobQueue.FreshClaimIsKept` | src/ccf/queue.py:186-211 | over every run a claim nobody reports on outlives all reaps that come before its threshold |
| `JobQueue.StepKeepsWithinCapIff` | src/ccf/queue.py:188-211 | a step takes the queue past the cap if and only if it hands back unfinished work on a job with no attempts left |
| `JobQueue.CapHoldsIffNeverOverdrawn` | src/ccf/config.py:343-351 | over every run no job is ever above the cap if and only if no such report is made |
| `JobQueue.ClaimsNeverExceedCap` | src/ccf/config.py:343-351 | over every run without such a report no job is claimed more often than it had attempts left |
| `PrepPipeline.NextStage` | src/ccf/prep/pipeline.py:70-75 | the loop answers with the first stage that is neither complete nor skipped, and with nothing exactly when there is none |
| `PrepPipeline.Advance` | src/ccf/prep/pipeline.py:291-308 | the loop over the open stages terminates and refines its specification: stop at a missing runner, a missing source or a stopped run, else complete |
| `PrepPipeline.OutcomesMean` | src/ccf/prep/jobs.py:197-209 | a run ends completed only with every stage through; it is reported finished exactly when completed, unsupported or orphaned, and given up exactly when a runner raised or broke it |
| `PrepPipeline.FirstOpenDecides` | src/ccf/prep/pipeline.py:293-304 | the first open stage is next; a missing source orphans the run without its runner, and a runner that raises or stops the run decides how it ends |
| `PrepPipeline.HealthyRunCompletes` | src/ccf/prep/pipeline.py:291-308 | with every stage registered, a source that stays and runners that do not fail, every run is completed |
| `PrepPipeline.HandsBackIffUnregistered` | src/ccf/prep/jobs.py:197-209 | whatever the sources, runs and failures, a worker never hands a run back unfinished if and only if every stage has a runner |
| `PrepPipeline.ShippedQueueStaysWithinCap` | src/ccf/prep/pipeline.py:202-208 | with the five runners that ship, every run of the queue stays within the cap and comes to rest |
| `JobQueue.DoneStaysDoneIff` | src/ccf/assessment/engine/jobs.py:285-304 | over every run a finished job stays done if and only if no later report on it, by a worker that was merely slow, says otherwise |
| `JobQueue.StepDrops` | src/ccf/queue.py:188-211 | every claim, requeue and dead-letter lowers a measure of the queue by at least one, and no step within the cap raises it |
| `JobQueue.QueueComesToRest` | src/ccf/config.py:343-351 | over every run within the cap, hand-backs and late reports included, the total number of claims, requeues and dead-letters is bounded by that measure at the start |
| `JobQueue.PoisonedJobEndsFailed` | src/ccf/config.py:343-350 | a job nobody reports on, in any run of a queue whose other workers and jobs do anything: its numbers of claims and reaps decide its state, it is failed and dead-lettered exactly once both reach the cap, and stays so |
| `DrainLoop.Drain` | src/ccf/cli.py:664-688 | one cycle in once mode, otherwise one per reading; each reaps exactly when due and sleeps exactly after an empty claim when looping |
| `DrainLoop.ReapCadence` | src/ccf/cli.py:740-760 | for every clock that never runs backwards: the first cycle reaps, reaps are at least an interval apart, and after each check the last reap is less than an interval old |

## Left out

- Foreign keys in the tenancy model: parents may be missing, and no cascade or SET NULL fires there; the results cover rows whose parents exist.
- Lock waits: a statement that would block, or wait for the advisory lock, is a step that changes nothing, to be issued again; PostgreSQL's re-evaluation after a wait is not modelled.
- `Isolation.TenantsAreIsolated`: says nothing about rows that unscoped sessions or tenants outside the set of writers change, and NULL-scope audit rows are writable by every tenant, as the policy says.
- One or two tables stand for each policy shape; the other policed tables repeat them.
- Which connection a pool hands out: every sequence of leftover bindings is allowed, consistent or not.
- The SQLite branch, engine creation, grants, plain indexes, and turning policies on and off.
- Randomness, cryptographic strength and constant-time comparison: digests are arbitrary functions of their inputs.
- Lenient corners of Python parsing: non-ASCII digits and whitespace, underscores and plus signs in `int`, foreign characters skipped by `b64decode`, and JSON whitespace, escapes, floats and booleans; only ASCII tokens are read.
- `hash_password` with a caller's own salt text, and the OverflowError of absurd stored round counts.
- HOTP counters outside 64 bits are an error result; the positive results about `verify` assume the window lies within range.
- An explicit `session.commit()` inside a savepoint block of an aborted transaction is an exception that changes nothing; what SQLAlchemy leaves of its own bookkeeping then is not modelled.
- Storing a spent step and committing it are one step of a request; the row lock a second writer waits on in between is not modelled.
- The work of a preparation stage: a runner is any function that stops the run, finishes its own stage without calling the run complete, or raises.
- Activation and encryption of MFA credentials: the model starts from an activated one with its secret in hand.
- The body of an audit entry, its redaction and its canonical JSON are one opaque text, and only `record_event` appends.
- The migrations' single UPDATE and DELETE statements are single assignments to the table, since the source has no loop there; only 0040's and 0080's loops are loops.
- `FrameworkControls.UpgradeDedupeIsNotMinimal`: minimality is claimed for 0040 only; 0046's dedupe lacks it.
- `DrainLoop.Drain`: is fed finitely many clock readings and batch sizes, so a loop that runs for ever is covered through all its finite prefixes.
- A claimed job whose row is not found before it is driven, which the source skips; the read is always a statement here, while SQLAlchemy may answer it from the session's identity map.
- Typer commands, console output, web routes, connectors, model calls, OSCAL export, and finite lookup tables such as finding normalisation.
