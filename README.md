# Staff access and review workflow of metamasonz_server

This Dafny project models the back end's staff-access and review engine, with its verified properties. The back end is an Express and MongoDB service. The public can submit a project there, and staff accounts, gained through an e-mailed invite, review the submissions. The model covers:

- **Brute-force lockout** on an account (`models/User.js`). The `loginAttempts`/`lockUntil` counters, the `isLocked` virtual, the lock guard of `comparePassword` and the password-hashing save hook. Also how `/login` strings them together (`routes/auth.js`).
- **Sessions and access guards.** Login appends a session record, and logout filters out the presented token. `auth` accepts a cookie only when the token verifies, the account with that id holds this exact token and the account's role is a staff role. Then come `admin` and `superAdmin` and the standalone `superAdmin` guard (`middleware/auth.js`, `middleware/superAdmin.js`).
- **The invite life cycle.** It covers the schema defaults (a 32-digit hex code and a one-day expiry), `isExpired` and the pre-save expiry hook (`models/Invite.js`). The routes are generate, resend, revoke and list (`routes/invites.js`), redemption at `/register`, and the daily expiry sweep (`jobs/expireInvites.js`).
- **Submissions.** Submit-time normalisation of the social handles, the schema setters, the pre-validate hook and every field validator with its message (`models/Submission.js`). Beyond that: the mapping of failures to 400/409/500 with the error map keyed by the last path segment, the admin list (filter, sort, limit 100), read, delete, and the review route with its transition table, lock and history (`routes/submissions.js`).
- **Account administration and codes.** The user list with each account's approval count, the delete guards and the role change (`routes/users.js`), and the six-character submission code (`utils/generateCode.js`).

Each MongoDB collection is a class (`UserCollection`, `InviteCollection`, `SubmissionCollection`). Each holds a `docs: seq<…>` field, a `nextId` counter that stands for fresh `ObjectId`s, and a `Valid()` invariant. That invariant covers only what the schema and the unique indexes keep true: roles and e-mails of accounts, ids and codes of invites together with the usage fields (`usedAt`, `usedBy`) that the routes keep consistent with the status, and for submissions the status enum and the unique code. The review fields of a submission are not in it, because the submit route copies whatever the client sends into them. Each route is modelled twice:

- as a specification function from the old collections and the request to the reply and the new collections (`LoginSpec`, `GenerateSpec`, `TransitionSpec`, …);
- as a method that updates the collection objects, proved equal to that function.

The lemmas state the route's promises about the specification functions.

Foreign code is passed in as values, bundled in `Base.Primitives`: `validator.isEmail`, `validator.isLength`, `bcrypt.compare`/`hash`, `jwt.sign`/`verify`. `Date.now()` is a `now: Time` parameter, fixed for one request. `Math.random()` is the sequence of six draws, and `crypto.randomBytes(16)` is a sequence of sixteen bytes. Handlers that run behind `auth` take the `caller` account that `auth` resolved.

Two consequences of the code are stated as lemmas. First, the submit route spreads the whole request body into the new document. A client can therefore send its own status, lock, reviewers, history, time and code. A body with `statusLocked: true` can never be reviewed (`LockedOnArrival`), and a status outside the enum is refused with the enum message (`UnknownStatusRefused`). Second, the self-delete guard compares the caller's id as text with the raw parameter. A parameter naming the same id in another spelling passes the guard (`SelfDeleteOtherSpelling`).

A duplicate invite e-mail is refused with 400 'Active invite exists for this email' (routes/invites.js:44-49).

## Model

| member | source | states |
|---|---|---|
| Base.Lower | models/User.js:16 | `toLowerCase` maps each ASCII capital to its small letter, keeps every other character and keeps the length |
| Base.Upper | models/Submission.js:57 | `toUpperCase` on the ASCII letters, position by position |
| Base.LowerIdempotent | routes/auth.js:136-150 | lowercasing an already lowercased e-mail changes nothing, so the route's own `toLowerCase` and the schema setter agree |
| Base.Trim | models/User.js:9 | the result of `trim` neither starts nor ends with white space |
| Base.TrimIdempotent | routes/auth.js:152 | trimming twice is trimming once, so the route's `trim()` and the schema's `trim` setter agree |
| Base.TrimKeepsPrefix | models/Submission.js:34-45 | a value starting with "@" or "http" still starts with it after the `trim` setter |
| Base.Filter | routes/auth.js:357-359 | the elements that pass: each kept one passes and comes from the input, and each passing one is kept |
| Base.CountIsFilterLength | routes/users.js:12-25 | the count equals the length of the joined list (`$size` of the `$lookup`) |
| Base.CountUpdate | routes/users.js:12-25 | replacing one element changes a count by exactly what leaves and what arrives |
| Base.SortBy | routes/submissions.js:71 | the sort is ordered by key and is a permutation of its input |
| Base.TakeOfSort | routes/submissions.js:71-72 | `.sort().limit(n)` gives exactly min(length, `n`) elements, all from the input (as a sub-multiset) and in key order, all of the input when it fits, and every element left out has a key no smaller than every element taken |
| Base.Take | routes/submissions.js:72 | `.limit(n)` keeps the first `n` elements, or all when there are fewer |
| Base.SortedPrefixFirst | routes/submissions.js:71-72 | in a sorted sequence every element after a prefix has a key no smaller than every element of the prefix |
| Base.JsLength | routes/auth.js:26 | the UTF-16 length of a string: its code points, plus one for each outside the basic plane; zero exactly for the empty string |
| Base.JsLengthBmp | models/User.js:10 | for text in the basic plane the UTF-16 length is the number of characters |
| UserModel.IsLocked | models/User.js:72-74 | definition: a lock is set and lies strictly in the future; properties in `LockLastsFifteenMinutes`, `LockEndingNowCounts`, `ComparePassword` and `LockedNeverCompares` |
| UserModel.AfterReset | models/User.js:114-119 | only the count and the lock change; the rest in `ResetFromAnyState` |
| UserModel.AfterFailedLogin | models/User.js:95-112 | `incrementLoginAttempts` changes only `loginAttempts` and `lockUntil`, and the count becomes at least one |
| UserModel.StaleLockRestartsCount | models/User.js:99-104 | a lock strictly in the past restarts the count at 1 and clears the lock, with no threshold check |
| UserModel.FailureCountsOne | models/User.js:106-110 | otherwise the count goes up by exactly 1; from 5 on, `lockUntil` becomes now + 900000, and below 5 it is untouched |
| UserModel.LockEndingNowCounts | models/User.js:72-109 | a lock ending exactly now is not a lock, and a failure then takes the counting branch |
| UserModel.FailuresBelowLimit | models/User.js:106-110 | up to five failures on an unlocked account count one each, and the lock appears exactly at the fifth, timed from that failure |
| UserModel.FifthFailureFirstLocks | models/User.js:95-112 | from a fresh account the first four failures set no lock and the fifth is the first to set one |
| UserModel.LockLastsFifteenMinutes | models/User.js:72-110 | a lock set at `t` holds exactly while now < `t` + 15 minutes |
| UserModel.ResetFromAnyState | models/User.js:114-119 | `resetLoginAttempts` zeroes the count and clears the lock from any state, and repeating it changes nothing |
| UserModel.ComparePassword | models/User.js:88-93 | it throws exactly when the account is locked |
| UserModel.LockedNeverCompares | models/User.js:89-92 | while locked the answer does not depend on the bcrypt comparison: it is never reached |
| UserModel.HashOnSave | models/User.js:76-85 | the save hook changes only `password`, and only when it was modified, to its hash |
| UserModel.NewUser | models/User.js:5-44 | a new account has no failures, no lock, no sessions, is not protected, and holds the lowercased e-mail and the given role |
| UserModel.WellFormedReplace | models/User.js:12-30 | replacing an account by one with the same id and e-mail keeps ids and e-mails unique and roles in the enum |
| UserModel.IndexOfId | models/User.js:15 | `findById` finds a position holding the id, or reports that none does |
| UserModel.IndexOfIdUnique | models/User.js:15 | with unique ids, `findById` finds the one position with that id |
| UserModel.AsStored | models/User.js:5-60 | `isProtected` is no path of the schema, so the account the strict schema keeps, and a later load, never carry it: the result is not protected and differs from the input in that field alone |
| UserModel.AllAsStored | models/User.js:5-60 | every account as the strict schema keeps it, position by position |
| UserModel.UserCollection.IncrementLoginAttempts | models/User.js:95-112 | only that account changes, to its `AfterFailedLogin`, and the collection stays well formed |
| UserModel.UserCollection.ResetLoginAttempts | models/User.js:114-119 | only that account changes, to its `AfterReset` |
| UserModel.UserCollection.SaveTokens | routes/auth.js:77-82 | only the account's `tokens` change; the hook leaves the password alone |
| UserModel.UserCollection.Create | models/User.js:5-85 | it fails validation iff the schema refuses the values; it reports a duplicate iff the lowercased e-mail is taken; otherwise it appends exactly the new account and uses the next id |
| UserModel.UserCollection.RemoveAt | routes/users.js:64 | `findByIdAndDelete` removes that account and keeps the others in order |
| UserModel.UserCollection.SetRole | routes/users.js:74-78 | only that account's role changes |
| AuthMiddleware.FindSession | middleware/auth.js:17-21 | the query finds an account with that id, that token in `tokens` and a staff role, or reports that none has them |
| AuthMiddleware.Authenticate | middleware/auth.js:5-39 | `auth` passes iff the cookie is present, the token verifies and an account with the payload's id holds the token with a staff role. Each of the three 401 messages stands for its own case. On success `req.token` is the cookie and `req.user` the matched account |
| AuthMiddleware.Admin | middleware/auth.js:41-47 | `admin` passes iff the role is admin, superAdmin or moderator, else 403 |
| AuthMiddleware.SuperAdmin | middleware/auth.js:49-57 | `superAdmin` passes iff the role is superAdmin, else 403 'Super admin privileges required' |
| AuthMiddleware.AuthenticatedPassesAdmin | middleware/auth.js:17-47 | every request `auth` lets through also passes `admin` |
| SuperAdminGuard.Check | middleware/superAdmin.js:1-9 | the guard continues iff the role is superAdmin, with the request unchanged, and otherwise answers 403 with its message |
| SuperAdminGuard.LowerStaffRefused | middleware/superAdmin.js:2-7 | admin and moderator are refused with 403 |
| SuperAdminGuard.AgreesWithAuthModule | middleware/superAdmin.js:1-9 | for every role it decides as the `superAdmin` of middleware/auth.js |
| AuthRoutes.CeilSeconds | routes/auth.js:49 | `Math.ceil(ms / 1000)`: the least whole number of seconds covering `ms` |
| AuthRoutes.FindStaffByEmail | routes/auth.js:34-37 | the first account with that e-mail and a staff role, or none |
| AuthRoutes.FindStaffUnique | routes/auth.js:34-37 | with unique e-mails the lookup finds the one staff account holding the e-mail |
| AuthRoutes.LoginSpec | routes/auth.js:13-110 | the route on the account values; it keeps the number of accounts. Properties in `LoginInputChecks`, `LockedLoginChangesNothing`, `WrongPasswordCountsOnce`, `LoginSuccessShape`, `RightPasswordLogsIn`, `LoginIgnoresEmailCase` and `LockoutScenario` |
| AuthRoutes.Login | routes/auth.js:13-110 | the route over the account collection does exactly what `LoginSpec` says |
| AuthRoutes.LoginIgnoresEmailCase | routes/auth.js:16 | the e-mail's case never changes the outcome |
| AuthRoutes.LoginInputChecks | routes/auth.js:16-45 | 400 for a non-e-mail, then 400 for a password under 8, then 401 when no staff account holds the e-mail; none of them changes anything |
| AuthRoutes.LockedLoginChangesNothing | routes/auth.js:48-54 | a locked account gets 429 with `ceil((lockUntil - now)/1000)` seconds, at least 1, and the counters stay as they were |
| AuthRoutes.WrongPasswordCountsOnce | routes/auth.js:57-64 | a wrong password applies `incrementLoginAttempts` once to that account only, answers 401 and records no session |
| AuthRoutes.LoginSuccessShape | routes/auth.js:57-82 | a login succeeds only for an unlocked staff account with a matching password; it clears the counters and appends exactly one session record, and every other account and earlier session is kept |
| AuthRoutes.FailedLoginsCount | routes/auth.js:57-60 | consecutive wrong passwords are the failure counter run on that one account |
| AuthRoutes.LockoutScenario | routes/auth.js:48-67 | five wrong passwords lock a fresh account for 15 minutes from the fifth. During the lock the right password gets 429 and nothing changes. From the end of the lock it logs in with the counter back at 0 |
| AuthRoutes.LoginWhileLocked | routes/auth.js:48-54 | a staff account locked until `t` answers any login before `t` with 429 and the seconds left, and nothing changes |
| AuthRoutes.RightPasswordLogsIn | routes/auth.js:57-74 | an unlocked staff account with the right password logs in and its counters are cleared |
| AuthRoutes.RegisterProblems | routes/auth.js:118-122 | each of the four messages is collected exactly when its check fails, all in one list; the two length checks are `validator.isLength` with minimum 8 and 2 |
| AuthRoutes.FindRedeemable | routes/auth.js:134-138 | the invite query matches the exact code, the lowercased e-mail and status `sent` |
| AuthRoutes.Redeem | routes/auth.js:140-160 | definition: the create of the account and the save of the invite once an invite matched; properties in `RedeemShape` |
| AuthRoutes.RedeemShape | routes/auth.js:140-160 | a redemption that succeeds has an unexpired invite, appends the new account under the next id and marks the invite accepted by it now |
| AuthRoutes.RegisterSpec | routes/auth.js:113-192 | definition: the input checks, then the invite lookup and the expiry check, then `Redeem`; properties in `RegisterSuccessShape`, `RegisterSucceeds`, `RegisterRefusesInvite`, `UnmatchedCodeNeverRegisters`, `SecondRedemptionFails` and `RegisterNeverGrantsSuperAdmin` |
| AuthRoutes.Register | routes/auth.js:113-192 | the route over both collections does exactly what `RegisterSpec` says |
| AuthRoutes.RegisterSuccessShape | routes/auth.js:134-160 | with a string invite code, success needs a `sent` invite with exactly that code and the lowercased e-mail that has not expired. The new account takes the invite's role, the lowercased e-mail and the trimmed name, with no session. The invite becomes `accepted`, with `usedAt` now and `usedBy` the new account |
| AuthRoutes.RegisterSucceeds | routes/auth.js:118-160 | conversely, with the input checks passed, a matching unexpired `sent` invite, values the account schema accepts and a free e-mail, registration succeeds with the next account id and a token signed for it |
| AuthRoutes.RegisterRefusesInvite | routes/auth.js:133-146 | with the input checks passed, a code that matches no `sent` invite for the lowercased e-mail, or one past its expiry, gets 400 'Invalid or expired invite code' and neither collection changes |
| AuthRoutes.RegisterNeverGrantsSuperAdmin | routes/auth.js:149-154 | when every stored invite has a role of the invite enum, registration adds exactly one account and it is never a superAdmin |
| AuthRoutes.SecondRedemptionFails | routes/auth.js:134-160 | with unique invite codes, after a redemption the same code and e-mail never register again, at any time and with any password or name; once the input checks pass the answer is the invite refusal and nothing changes |
| AuthRoutes.RedeemedCodeSpent | routes/auth.js:156-160 | with unique invite codes, after a redemption no `sent` invite carries the redeemed code |
| AuthRoutes.UnmatchedCodeNeverRegisters | routes/auth.js:134-146 | without a matching `sent` invite registration never succeeds; once the input checks pass the answer is the invite refusal and nothing changes |
| AuthRoutes.RegistrationTokenRejected | routes/auth.js:163-174 | the token issued at registration is not recorded in the account, so `auth` turns it away with 'Invalid token' even though it verifies |
| AuthRoutes.NewAccountTokenRejected | routes/auth.js:149-174 | a token that verifies to the id of an account just appended with no sessions is refused by `auth` |
| AuthRoutes.NoSessionForNewId | routes/auth.js:149-154 | no existing account has the next id and the new account holds no session |
| AuthRoutes.WithoutToken | routes/auth.js:357-359 | the filtered list keeps exactly the sessions with another token |
| AuthRoutes.LogoutSpec | routes/auth.js:354-373 | definition: `auth`, then the caller's sessions without the presented token; properties in `LogoutDropsPresentedSession`, `LogoutKeepsOtherSessions` and `LogoutUndoesLogin` |
| AuthRoutes.Logout | routes/auth.js:354-373 | the route does exactly what `LogoutSpec` says |
| AuthRoutes.LogoutDropsPresentedSession | routes/auth.js:354-360 | logout drops exactly the presented token's sessions from the caller's account. No other account changes. The token is refused from then on |
| AuthRoutes.LogoutKeepsOtherSessions | routes/auth.js:357-359 | every other token that authenticated before still does |
| AuthRoutes.LogoutUndoesLogin | routes/auth.js:354-360 | logging out with the token a login just issued gives back the account's earlier sessions |
| AuthRoutes.WithoutFreshToken | routes/auth.js:357-359 | dropping a token that no earlier session held gives back the earlier list |
| InviteModel.HexEncode | models/Invite.js:10 | `toString('hex')` gives two lower-case hex digits per byte |
| InviteModel.HexEncodeInjective | models/Invite.js:10 | different random bytes give different codes |
| InviteModel.DefaultInvite | models/Invite.js:6-37 | the default code is 32 hex digits, `expiresAt` is creation time + 86400000, status is `pending` and the e-mail is lowercased |
| InviteModel.IsExpired | models/Invite.js:55-57 | definition: strictly past its expiry, whatever the status; properties in `BeforeSave`, `HookOverridesRevoked`, `ResendShape` and `RegisterRefusesInvite` |
| InviteModel.BeforeSave | models/Invite.js:55-69 | the hook changes only the status. An invite saved strictly after its expiry becomes `expired` unless accepted, and any other invite is left as it is |
| InviteModel.HookOverridesRevoked | models/Invite.js:64-69 | the hook overrides `pending`, `sent` and `revoked` |
| InviteModel.HookIdempotent | models/Invite.js:64-69 | saving twice at the same time is saving once |
| InviteModel.UsageConsistent | models/Invite.js:33-42 | definition: `usedAt` and `usedBy` are set exactly on accepted invites. No schema rule enforces it; the routes keep it, as `InviteCollection.Insert` and `InviteCollection.Save` require it of what they store |
| InviteModel.InviteOk | models/Invite.js:5-42 | definition: an id below the counter, a role of the enum, a lowercased e-mail and consistent usage fields; kept by `WellFormedReplace` and `SweepWellFormed` |
| InviteModel.WellFormedReplace | models/Invite.js:6-22 | replacing an invite by one with the same id and code keeps ids and codes unique |
| InviteModel.IndexOfId | models/Invite.js:5 | `findById` finds a position holding the id, or reports that none does |
| InviteModel.IndexOfIdUnique | routes/invites.js:84-93 | with unique ids, `findById` finds the one invite with that id |
| InviteModel.SuperAdminNotInvitable | models/Invite.js:18-21 | the invite role enum does not hold superAdmin |
| InviteModel.InviteCollection.Insert | models/Invite.js:6-22 | it is invalid iff the schema refuses the invite, and a duplicate iff the code is taken. Otherwise it appends the invite after the save hook |
| InviteModel.InviteCollection.Save | models/Invite.js:64-69 | only that invite changes, to the edited invite after the hook |
| InviteRoutes.GenerateSpec | routes/invites.js:10-80 | definition: the checks in the route's order, then the insert; properties in `GenerateRefusals`, `DuplicateCheckIgnoresExpiry`, `GenerateCreatesOne` and `GenerateSucceeds` |
| InviteRoutes.Generate | routes/invites.js:10-80 | the route does exactly what `GenerateSpec` says |
| InviteRoutes.GenerateRefusals | routes/invites.js:15-49 | in order: 400 for a non-e-mail, 400 for a role other than admin/moderator, 400 when an account holds the lowercased e-mail, 400 when a pending or sent invite exists for it. A refusal creates nothing |
| InviteRoutes.DuplicateCheckIgnoresExpiry | routes/invites.js:39-49 | a `sent` invite past its expiry still blocks a new one |
| InviteRoutes.GenerateCreatesOne | routes/invites.js:52-72 | success appends one invite with the lowercased e-mail, the requested role, `createdBy` = caller, status `sent`, a one-day expiry and a fresh code |
| InviteRoutes.GenerateSucceeds | routes/invites.js:15-72 | conversely, a valid e-mail, a role of the two, no account and no pending or sent invite for the lowercased e-mail and a drawn code no invite has give 201 with exactly one new invite carrying the drawn code |
| InviteRoutes.CreatedInviteAccepted | routes/invites.js:52-72 | the invite built for a new lowercased e-mail with an invite role passes the schema, and the hook keeps its drawn code |
| InviteRoutes.ResendSpec | routes/invites.js:84-132 | definition: 404, accepted 400, expired 400, else a new expiry and `sent`; properties in `ResendShape` and `ResendRevivesRevoked` |
| InviteRoutes.Resend | routes/invites.js:84-132 | the route does exactly what `ResendSpec` says |
| InviteRoutes.ResendShape | routes/invites.js:86-112 | success comes exactly on an existing, unaccepted, unexpired invite. It then moves `expiresAt` to now + 86400000 and the status to `sent`, and changes nothing else. Otherwise nothing changes |
| InviteRoutes.ResendRevivesRevoked | routes/invites.js:95-111 | a revoked, unexpired invite goes back to `sent` |
| InviteRoutes.RevokeSpec | routes/invites.js:154-194 | definition: 404, accepted 400, creator-or-superAdmin 403, else `revoked` through the hook; properties in `RevokeShape` and `RevokeOthersForbidden` |
| InviteRoutes.Revoke | routes/invites.js:154-194 | the route does exactly what `RevokeSpec` says |
| InviteRoutes.RevokeShape | routes/invites.js:154-194 | each outcome exactly in its case: 404 iff no invite has the id, 400 iff it is accepted, 403 iff the caller neither created it nor is a superAdmin, success otherwise. On success only that invite's status changes, to `revoked`, or to `expired` past its expiry, and the reply is the saved invite. Re-revoking is allowed. A refusal changes nothing |
| InviteRoutes.RevokeOthersForbidden | routes/invites.js:174-179 | an admin who did not create the invite gets 403 and nothing changes |
| InviteRoutes.ListInvites | routes/invites.js:137-138 | the list is every invite, newest `createdAt` first |
| ExpireInvitesJob.Due | jobs/expireInvites.js:6-12 | definition: the `updateMany` filter, pending or sent and strictly past its expiry; properties in `SweepChangesOnlyDue` and `NothingDueAfterSweep` |
| ExpireInvitesJob.Sweep | jobs/expireInvites.js:6-12 | the collection after the update: the same length, each invite swept on its own; the rest in `SweepChangesOnlyDue`, `SweepIdempotent` and `MatchedIsModified` |
| ExpireInvitesJob.SweepChangesOnlyDue | jobs/expireInvites.js:6-12 | only pending or sent invites strictly past expiry change, and only their status, to `expired`. Accepted, revoked and expired invites and unexpired ones are untouched |
| ExpireInvitesJob.SweepIdempotent | jobs/expireInvites.js:6-12 | a second run at the same time changes nothing |
| ExpireInvitesJob.NothingDueAfterSweep | jobs/expireInvites.js:6-12 | after a run no invite matches the filter |
| ExpireInvitesJob.MatchedIsModified | jobs/expireInvites.js:6-13 | the number of matched invites equals the number actually changed |
| ExpireInvitesJob.SweepWellFormed | jobs/expireInvites.js:6-12 | the run keeps ids and codes unique |
| ExpireInvitesJob.ExpireInvites | jobs/expireInvites.js:4-17 | the loop leaves the collection equal to `Sweep` and returns the number of matched documents, which is the number modified |
| CodeGenerator.DrawIndex | utils/generateCode.js:4 | `Math.floor(r * 32)` lies in [0, 32) for r in [0, 1) |
| CodeGenerator.GenerateCode | utils/generateCode.js:1-6 | the code has exactly 6 characters, all from the alphabet |
| CodeGenerator.AlphabetShape | utils/generateCode.js:2 | the alphabet has 32 characters: capitals other than I and O, and the digits 2 to 9 |
| CodeGenerator.EveryIndexReachable | utils/generateCode.js:4 | every alphabet position is drawn by some value in [0, 1) |
| CodeGenerator.UppercaseKeepsCode | models/Submission.js:56-57 | the schema's `uppercase` setter leaves a generated code unchanged |
| SubmissionModel.Construct | models/Submission.js:52-80 | every path the body carries is kept; the defaults fill only the absent ones (`pending`, unlocked, empty history, the request time); the code is upper-cased whether it came from the body or the default. A body with only content fields gives an unreviewed document |
| SubmissionModel.RewriteDiscord | models/Submission.js:89-92 | the hook changes only `socials.discord`, and only a present value not starting with 'http', to the invite link |
| SubmissionModel.ValidationErrors | models/Submission.js:6-100 | definition: the failures of the eight field validators in schema order; properties in `NoErrorsIffAcceptable`, `ContactRequired` and `ErrorsByField` |
| SubmissionModel.Acceptable | models/Submission.js:6-100 | definition: every positive field rule and the contact rule; tied to `ValidationErrors` by `NoErrorsIffAcceptable` |
| SubmissionModel.NoErrorsIffAcceptable | models/Submission.js:6-100 | validation reports nothing exactly when every field rule and the contact rule hold |
| SubmissionModel.ContactRequired | models/Submission.js:95-97 | without an e-mail and a founder handle validation fails on `socials.founderTg` with 'Either email or founder Telegram required' |
| SubmissionModel.IndexOfId | models/Submission.js:5 | `findById` finds a position holding the id, or reports that none does |
| SubmissionModel.IndexOfIdUnique | models/Submission.js:5 | with unique ids, `findById` finds the one position with that id |
| SubmissionModel.SubmissionCollection.Insert | models/Submission.js:52-58 | the unique index refuses exactly a taken code, and otherwise the document is appended |
| SubmissionModel.SubmissionCollection.Update | routes/submissions.js:183-187 | only that submission changes |
| SubmissionModel.SubmissionCollection.RemoveAt | routes/submissions.js:117 | that submission is removed and the others keep their order |
| SubmissionRoutes.StripAt | routes/submissions.js:15 | one leading '@' is dropped and nothing else changes |
| SubmissionRoutes.NormaliseSocials | routes/submissions.js:13-22 | the handler's socials: `x` loses at most one leading '@', `telegram` starts with '@', `discord` starts with 'http', values already in that form are kept and `founderTg` is copied |
| SubmissionRoutes.ShortName | routes/submissions.js:47 | `split('.').pop()` is the last segment |
| SubmissionRoutes.ErrorMap | routes/submissions.js:46-48 | every error's short name is a key, and the last error of a name wins |
| SubmissionRoutes.ErrorMapChecked | routes/submissions.js:46-48 | one more failing field adds its message under its short name |
| SubmissionRoutes.ErrorMapOfValidation | routes/submissions.js:43-48 | the `errors` object is built field by field from the eight validators, the status enum included |
| SubmissionRoutes.ErrorsByField | routes/submissions.js:43-48 | the 400 body has a key for exactly each failing field, `status` included, holding that field's message |
| SubmissionRoutes.PreparedDoc | routes/submissions.js:11-25 | the document `create` validates has the next id; its code, status, lock, history, reviewers and time are the body's when it sends them and the defaults otherwise, the code upper-cased |
| SubmissionRoutes.SubmitSpec | routes/submissions.js:8-60 | a refusal leaves the collection and the counter as they were; the outcomes in `SubmitAcceptedIff`, `SubmittedShape`, `InvalidSubmissionErrors` and `LockedOnArrival` |
| SubmissionRoutes.Submit | routes/submissions.js:8-60 | the route, with a code drawn by `generateCode`, does exactly what `SubmitSpec` says |
| SubmissionRoutes.Decide | routes/submissions.js:25-52 | a refusal leaves the collection and the counter as they were; the rest in `DecideAcceptedIff`, `DecideSubmitted` and `DecideInvalid` |
| SubmissionRoutes.Store | routes/submissions.js:25-52 | validation errors give the error map, a taken code gives 409, otherwise the document is inserted |
| SubmissionRoutes.DecideAcceptedIff | routes/submissions.js:25-52 | the document is stored iff it passes every field rule and its code is not taken |
| SubmissionRoutes.StoredShape | routes/submissions.js:25-34 | a stored document is appended after the others under the next id, the reply carries its code, id and time, and the collection stays well formed |
| SubmissionRoutes.HookRewriteInert | routes/submissions.js:19-21 | after the handler's normalisation the hook's discord rewrite never fires |
| SubmissionRoutes.SubmitAcceptedIff | routes/submissions.js:8-60 | a missing `socials` gives 500. Otherwise a submission is stored iff the prepared document passes every rule and its code is not taken |
| SubmissionRoutes.SubmittedShape | routes/submissions.js:11-34 | a stored submission is appended with the next id, the body's code (upper-cased) or the drawn one, and the body's status, lock, history, reviewers and time or the defaults. Its status is in the enum, the reply carries code, id and time, and the collection stays well formed |
| SubmissionRoutes.ContentSubmissionUnreviewed | routes/submissions.js:11-34 | a body with only content fields is stored pending, open and unreviewed, under the drawn code and the request time |
| SubmissionRoutes.LockedOnArrival | routes/submissions.js:11-12 | a stored body that sent `statusLocked: true` is final from the start: every review request on it is refused as finalized |
| SubmissionRoutes.UnknownStatusRefused | models/Submission.js:67-71 | a body `status` outside the enum is refused with 400, nothing is stored, and `errors.status` is the enum validator's message |
| SubmissionRoutes.SubmittedCode | routes/submissions.js:29 | the reply's code is the stored one: the body's code upper-cased, or else the drawn one upper-cased |
| SubmissionRoutes.GeneratedCodeReported | routes/submissions.js:25-34 | with no code in the body the reply carries exactly the generated 6-character code |
| SubmissionRoutes.InvalidSubmissionErrors | routes/submissions.js:39-58 | a 400 carries the error map of the validation errors, and it is never empty |
| SubmissionRoutes.DecideInvalid | routes/submissions.js:43-48 | a 400 carries the error map of exactly the reported errors, with at least one key |
| SubmissionRoutes.PreparedHandles | routes/submissions.js:13-21 | the stored telegram and discord are the trimmed normalised values |
| SubmissionRoutes.TelegramPlaceholderText | models/Submission.js:34-39 | "@undefined" is trimmed already and passes the telegram pattern |
| SubmissionRoutes.DiscordPlaceholderText | models/Submission.js:40-45 | "https://discord.gg/undefined" is trimmed already and passes the invite-link pattern |
| SubmissionRoutes.TelegramAlwaysGiven | routes/submissions.js:16-18 | the stored telegram is always present and starts with '@'. An omitted one becomes "@undefined", which passes |
| SubmissionRoutes.DiscordAlwaysGiven | routes/submissions.js:19-21 | the stored discord is always present and starts with 'http'. An omitted one becomes "https://discord.gg/undefined", which passes |
| SubmissionRoutes.TelegramPlaceholder | routes/submissions.js:16-18 | an omitted telegram is stored as "@undefined" and passes validation |
| SubmissionRoutes.DiscordPlaceholder | routes/submissions.js:19-21 | an omitted discord is stored as "https://discord.gg/undefined" and passes validation |
| SubmissionRoutes.ListSubmissions | routes/submissions.js:63-85 | each listed submission is stored and matches the status filter; ascending by `submittedAt` for sort=oldest and descending otherwise |
| SubmissionRoutes.ListedFirst | routes/submissions.js:66-72 | the listing holds min(100, number matching) of the matching submissions, all of them when they fit, and every matching one left out comes after every listed one in the requested order |
| SubmissionRoutes.OldestFirst | routes/submissions.js:67-72 | ascending `submittedAt`, exactly min(100, length) elements from the input, all of it when it fits, and none left out is older than one listed |
| SubmissionRoutes.NewestFirst | routes/submissions.js:67-72 | descending `submittedAt`, exactly min(100, length) elements from the input, all of it when it fits, and none left out is newer than one listed |
| SubmissionRoutes.GetSubmission | routes/submissions.js:234-256 | found iff a submission has the id, and then it is that one; otherwise 404 |
| SubmissionRoutes.DeleteSpec | routes/submissions.js:115-136 | 404 leaves the collection as it was; the rest in `DeleteRemovesOne` |
| SubmissionRoutes.Delete | routes/submissions.js:115-136 | the route does exactly what `DeleteSpec` says |
| SubmissionRoutes.DeleteRemovesOne | routes/submissions.js:115-129 | deleted iff the id exists. Every other submission is kept, exactly one fewer remains, and the id is then not found |
| SubmissionRoutes.AllowedTargets | routes/submissions.js:152-158 | the table has an entry exactly for the three enum values; only `pending` may move, to `approved` or `rejected` |
| SubmissionRoutes.TransitionSpec | routes/submissions.js:139-203 | a refusal changes nothing and a success needs the submission to exist and keeps the length; the rest in `TransitionAccepted`, `TransitionSucceeds`, `TransitionOnMissing`, `TransitionOnLocked`, `TransitionInvalidMove` and `DecisionIsFinal` |
| SubmissionRoutes.Transition | routes/submissions.js:139-203 | the route does exactly what `TransitionSpec` says |
| SubmissionRoutes.TransitionAccepted | routes/submissions.js:144-187 | an accepted review was on an open, pending submission with 'approved' or 'rejected'. It sets that status and the lock and appends exactly one history entry, keeping the earlier ones. Approving records the caller in `approvedBy` and keeps `rejectedBy`; rejecting the other way round. Nothing else of that submission or of any other changes |
| SubmissionRoutes.TransitionSucceeds | routes/submissions.js:144-187 | conversely, an open pending submission accepts an 'approved' or 'rejected' request |
| SubmissionRoutes.FirstReviewConsistent | routes/submissions.js:166-180 | on a submission nobody reviewed, an accepted review leaves one history entry, and `approvedBy`/`rejectedBy` is set iff the status is approved/rejected, to the caller |
| SubmissionRoutes.TransitionKeepsWellFormed | routes/submissions.js:166-187 | reviews keep every status in the enum and the ids and codes unique |
| SubmissionRoutes.TransitionOnMissing | routes/submissions.js:139-203 | a missing submission fails with 500 and nothing changes |
| SubmissionRoutes.TransitionOnLocked | routes/submissions.js:144-149 | a locked submission is refused as finalized whatever is requested, before the table is consulted |
| SubmissionRoutes.TransitionInvalidMove | routes/submissions.js:158-163 | on an open submission with a status of the enum, any other move is refused with 400 naming the current and the requested status |
| SubmissionRoutes.DecisionIsFinal | routes/submissions.js:144-176 | after an accepted review every further request on that submission is refused |
| UserRoutes.ListUsers | routes/users.js:8-37 | one row per account |
| UserRoutes.ListedAccounts | routes/users.js:10-28 | each row carries the account's id, name, e-mail, role, `createdAt` and `isProtected`, and a `codesGenerated` equal to the number of submissions it approved; the row type holds no password or tokens |
| UserRoutes.CountedApprovals | routes/users.js:12-25 | the count is the number of submissions whose `approvedBy` is the account, each from the collection |
| UserRoutes.ApprovalCountsOne | routes/users.js:12-25 | an approval adds one to the approving account's count unless it was already recorded, takes one from the account recorded before, and leaves every other count alone; any other review request changes no count |
| UserRoutes.FirstApprovalCountsOne | routes/users.js:12-25 | approving a submission nobody had approved adds exactly one to the approver's count and nothing to any other |
| UserRoutes.DeleteUserSpec | routes/users.js:40-69 | a refusal changes nothing; the outcomes in `DeleteUserOutcomes`, `DeleteUserRemovesOne`, `SelfDeleteRefused`, `SelfDeleteOtherSpelling` and `ProtectedNeverDeleted` |
| UserRoutes.DeleteUser | routes/users.js:40-69 | the route does exactly what `DeleteUserSpec` says |
| UserRoutes.DeleteUserOutcomes | routes/users.js:40-67 | in order: 403 for anyone but a superAdmin, 500 for a parameter that is no id, 404 for an absent account, 403 for a protected one, 400 when the parameter is the caller's id as text, otherwise deleted. Each holds exactly in its case |
| UserRoutes.SelfDeleteRefused | routes/users.js:56-62 | the caller's own unprotected account, named by its id as text, is refused with 400 |
| UserRoutes.SelfDeleteOtherSpelling | routes/users.js:42-64 | a parameter that casts to the caller's own id but is spelled differently from its text form deletes the caller's unprotected account |
| UserRoutes.ProtectedCheckedBeforeSelf | routes/users.js:49-62 | a protected caller deleting their own account gets the protected 403, not the self 400 |
| UserRoutes.ProtectedNeverDeleted | routes/users.js:48-54 | with `isProtected` kept, a protected account is still there after any delete request, from any caller with any parameter |
| UserRoutes.SeededAdminDeletableAsWritten | routes/users.js:40-67 | on the accounts as the strict schema keeps them, a super admin deletes any other account named by a parameter that is not their own id as text, the one seeded with `isProtected: true` included |
| UserRoutes.DeleteUserRemovesOne | routes/users.js:64 | a delete needs a parameter that casts to an id; it removes exactly the account with that id, keeps every other and adds nothing |
| UserRoutes.ChangeRoleSpec | routes/users.js:71-86 | a refusal changes nothing; the rest in `RoleChangeSetsOnlyRole`, `RoleChangeKeepsWellFormed` and `MutationsNeedSuperAdmin` |
| UserRoutes.ChangeRole | routes/users.js:71-86 | the route does exactly what `ChangeRoleSpec` says |
| UserRoutes.RoleChangeSetsOnlyRole | routes/users.js:71-86 | for a superAdmin, the change succeeds iff the role is in the enum and the account exists, and it fails with 500 iff the role is outside the enum. There is no protected or self guard. On success only that account's role changes and the reply shows it |
| UserRoutes.RoleChangeKeepsWellFormed | routes/users.js:74-78 | a role change keeps the accounts well formed |
| UserRoutes.MutationsNeedSuperAdmin | routes/users.js:40-71 | anyone but a superAdmin gets 403 from both routes and nothing changes |

## Left out

- E-mail sending (utils/emailSender.js) is not part of this model. The routes ignore its result, so the invite routes come out the same with no mail step.
- The socket.io server (utils/socket.js), the Express wiring, CORS, helmet, the rate limiter and the database connection (index.js), and the seeding script (scripts/seedFirstAdmin.js) are plumbing outside this model. The User schema does not declare `isProtected`. The model keeps it as a field of the account because the users route reads it and its `$project` stage lists it. Registration creates every account with it false. The model keeps the 403 branch of the delete route reachable because the route reads the field; under the strict schema the branch is dead, as "## Findings" records.
- The search route (routes/submissions.js:206-231) is left out: it builds regular expressions from user input and relies on MongoDB's query semantics. The commented-out search (routes/submissions.js:87-112), the commented-out invite routes and `sendWelcomeEmail` in routes/auth.js never run and are left out too.
- `/verify` and `/me` (routes/auth.js:376-404) only echo the account `auth` resolved and are left out.
- MongoDB TTL indexes (`expires: '30d'` on sessions, `expires: '24h'` on invites) and the cron schedule are left out. The sweep is one call at a given time.
- The model assumes the unique indexes on `User.email`, `Invite.code` and `Submission.submissionCode` exist. index.js:21-23 builds indexes only outside production (`autoIndex`). Without them, the duplicate branches of `UserCollection.Create`, `InviteCollection.Insert` and `SubmissionCollection.Insert` never fire, and the uniqueness parts of each `WellFormed` are not kept. Two accounts, invites or submissions could then share an e-mail or a code.
- Concurrency is left out: the model is sequential. The check-then-act race between the duplicate checks and the insert in invite generation is therefore not captured.
- Cookies, cookie options and response bodies are left out. Each reply is a tag with its status code and, where the route sends one, its message.
- bcrypt, `jwt.sign`/`jwt.verify`, `validator.isEmail`, `crypto.randomBytes` and `Math.random` are parameters. JWT expiry and the secret are inside `verify`.
- Case mapping covers ASCII letters only. A `char` is a code point. `JsLength` counts UTF-16 code units, as JavaScript's `length` and the schema's `minlength`/`maxlength` do. `validator.isLength`, which counts differently, is the parameter `isLength`.
- `ObjectId`s are a counter. The delete-user route takes its parameter as text, with the cast and the text form of an id as parameters. In the other routes a malformed id string, which makes `findById` throw a cast error and answer 500, is not modelled. Nor are `null` or non-string request values: an absent field is `None`. A non-string `status` in a review request or in a submitted body is not modelled either.
- `populate` is left out: replies carry the stored id, not the referenced account's name and e-mail.
- Only `loginAttempts`/`lockUntil`, `tokens`, `password`, `role` and the fields the routes read are modelled. `lastLogin`, `isVerified` and the `timestamps` bookkeeping other than `createdAt` are not.
- Base.SortBy: ties in the sort key keep the order an insertion sort gives. MongoDB promises no order for ties.
- SubmissionRoutes.SubmitSpec: the `...req.body` spread is modelled for the schema paths: `status`, `statusLocked`, `statusHistory`, `approvedBy`, `rejectedBy`, `submittedAt` and `submissionCode` are the body's when sent. Not modelled: cast failures of those values (a non-boolean `statusLocked`, a malformed id, date or history entry), a body `_id`, the timestamps, and the `changedAt` default inside history entries.
- SubmissionRoutes.SubmitSpec: the submission code is an input, so the spec holds for any code. `Submit` feeds it the output of `generateCode`.
- SubmissionRoutes.Transition: the update validators that `runValidators` runs on the review update cannot fail for 'approved' or 'rejected' and are not modelled. The development-mode error message of the 500 is not modelled either.
- UserRoutes.ChangeRoleSpec: with no `role` in the body nothing is updated, so the update finds the account and returns it unchanged, or answers 404. A `null` role is not modelled.
- AuthRoutes.RegisterSuccessShape: an `inviteCode` sent as an object (such as `{"$ne": null}`) becomes a query operator in `findOne`, and express-mongo-sanitize is commented out in index.js. The model takes the code as a string, so it does not capture that such a body can redeem any `sent` invite for the e-mail.
- UserRoutes.ChangeRoleSpec: the target is an identifier, so the 500 of a malformed id parameter is not modelled for the role change.

## Findings

| source | as written | input that shows it | evidently intended | confidence | as-written member | corrected member |
|---|---|---|---|---|---|---|
| routes/users.js:48-54 | the delete route refuses an account whose `isProtected` is set, but the User schema declares no such path, so under strict mode `User.create` in scripts/seedFirstAdmin.js drops it and the loaded document reads `undefined` | the account seeded with `isProtected: true`, deleted by a second super admin | the seeded account cannot be deleted (the path declared in the schema) | medium, not executed | UserRoutes.SeededAdminDeletableAsWritten | UserRoutes.ProtectedNeverDeleted |
