# Verified model of the backend's protocols

A Dafny model of the stateful parts of the Rust backend and of three transformations around them,
with proofs of what they keep over every run. `dafny verify dfyconfig.toml` checks all of it.

**Payments.** A payment has a status graph, a row, and an append-only history. `transition` is a
guarded compare-and-set that never asks whether a move is legal; the webhook and refund use cases do,
against a status they read earlier. `PaymentProtocol` interleaves any number of inserts, webhook
workers and refund workers, one storage call per step, any call failing before or after it takes
effect, and proves that the history is a legal audit trail all the same, that no event is applied
twice, that of several workers with one stale status at most one wins, and that statuses only climb.
The in-place adapters and use cases (`PaymentStores.Postgres`, `PaymentWebhooks.WebhookService`,
`PaymentRefunds.PaymentsService`) are proved against functions, and those functions against the
protocol: a worker left alone does exactly what its use case does.

**Lockout.** The saturating, clamped delay arithmetic, and `login` over its two counters (account and
address), kept exactly or through Postgres. Main result: how long a streak of failures has to take.

**Rate limiter.** The shared map of fixed windows, its sliding bound for any interval, the exactness
of `retry_after`, and the two keys a login consumes.

**Sessions.** Issue, sliding idle window, absolute ceiling, rotation, revocation, best-effort cleanup.
`SessionTraces` says exactly when a token authenticates after any sequential run and compares the
whole-second store with an exact one, every store call free to fail; `SessionRaces` interleaves single
store calls.

**OAuth.** `begin` and `complete` over the one-shot store, with any number of callbacks interleaved;
`OAuthLinks` asks which admin they return.

**Transformations.** The migration runner, the compilation of a payment query into numbered
placeholders with paging over it, the webhook signature header and hex codec, and the sidebar's
filter-and-sort chain.

## Conventions

- A `Fault` says how one storage call ends: `Fine`; `Lost`, no effect and an error; `LostAck`, the
  effect and an error.
- Instants are nanoseconds since the epoch. `Exact` keeps them; `Postgres` cuts them to whole seconds.
- A provider answers with identities of its own (crates/infrastructure/src/oauth_provider.rs:200-204).
- Generated values (tokens, states, payment ids, clock readings, the provider's answers) are inputs.
  A generated token or state is assumed new: neither issued nor presented before.
- In a class, the methods run in place what a function of the same component computes on values; their
  postconditions equate the two, and the lemmas are about the functions.

## Where the code departs from what its text says

- `crates/payments/src/webhook.rs:82-91` says a redelivery's payload is persisted too;
  the statement inserts nothing on a conflict (`PaymentWebhooks.ReceiptIff`).
- `crates/domain/src/auth.rs:311-312` says a larger shift saturates to `max_delay` anyway. That holds
  exactly under the condition of `Lockouts.CappedShiftSaturatesIff`; `Lockouts.CappedShiftFallsShort`
  is an input for which it fails. The doubling of lines 306-307 holds exactly under the condition of
  `Lockouts.LockDurationDoublesIff`.
- `crates/api/src/rate_limit.rs:32-37` promises at most `2 * max_requests`. The `u32` counter wraps in
  a release build. For logs with at most n checks in any one window's length, that bound holds exactly
  when n is below 2^32 + `max_requests` (`RateLimits.DocumentedBoundIff`), and its generalisation to
  intervals of every length exactly when n is below 2^32 (`RateLimits.SlidingBoundIff`). A zero window
  admits everything unless the limit is zero too (`RateLimits.ZeroWindowAdmitsAll`).
- Through Postgres the `i32` counter starts over after 2^31 failures
  (`Logins.LocksCountTheStreak`).
- Rotation is meant to leave the old token nothing to ride on, but two rotations of one token that
  overlap each issue a live one. A login has at most one row, and at most one token that authenticates,
  exactly when no rotation reads a live token that another rotation has read and not yet deleted
  (`SessionRaces.OneRowIff`, `SessionRaces.OneLiveTokenIff`).
- `crates/application/src/oauth.rs:216-217` says an existing link wins. Sign-ins of one identity that
  race can return another admin than the link; they never do exactly when no configured provider can
  answer one subject with the addresses of two admins' accounts (`OAuthLinks.SignInsReturnLinksIff`).
- `crates/contracts/src/registry.rs:52-56` promises that modules cannot collide. Unique names are not
  enough for that: the exact condition is in `Migrations.NamespacesCollideIff`.

## Model

| member | source | states |
|---|---|---|
| `PaymentProtocol.AuditTrail` | crates/infrastructure/src/payments_repo.rs:58-191 | in every interleaving with failures anywhere, a payment whose insert returned Ok has a history that starts with its creation, chains, uses only legal moves, ends at the stored status and has at most 6 rows beyond repeated partial refunds; a payment whose creation row is missing is still Created without a reference |
| `PaymentProtocol.EventsApplyOnce` | crates/application/src/payments_webhook.rs:82-120 | no two history rows come from one event id or from one refund call, however often the event is delivered and whichever calls fail |
| `PaymentProtocol.StaleReadsLose` | crates/infrastructure/src/payments_repo.rs:154-173 | of two changes made from the same status the earlier is a repeated partial refund, and every other status is entered once |
| `PaymentProtocol.StatusNeverFalls` | crates/payments/src/payment.rs:92-106 | from any state that keeps the invariant, however the run goes on, a known payment's rank never falls, its trail only grows, and a terminal status is final |
| `PaymentProtocol.TermsStay` | crates/infrastructure/src/payments_repo.rs:58-191 | in every interleaving nothing changes a payment's amount or creation time after its insert |
| `PaymentProtocol.RunKeepsInv` | crates/application/src/payments_webhook.rs:82-120 | every step of every worker keeps the inductive invariant: rows agree with trails, what stale workers hold stays usable, claims are held by one worker, causes are spent for good |
| `PaymentProtocol.HookKeepsLedger` | crates/application/src/payments_webhook.rs:88-120 | each store call of a webhook worker, from a status read any time before, keeps the ledger legal |
| `PaymentProtocol.RefundKeepsLedger` | crates/application/src/payments.rs:122-171 | each call of a refund worker, from a status read any time before, keeps the ledger legal whatever the provider answers |
| `PaymentProtocol.StepKeepsCauses` | crates/infrastructure/src/payments_webhook_store.rs:48-69 | a claim is permanent and held by at most one worker, so no cause enters the history twice |
| `PaymentProtocol.HookAloneIsHandle` | crates/application/src/payments_webhook.rs:65-121 | the protocol's webhook steps, uninterrupted, leave the tables `handle` leaves, for every failure of its calls |
| `PaymentProtocol.RefundAloneIsRefund` | crates/application/src/payments.rs:122-171 | the protocol's refund steps, uninterrupted, leave the ledger `refund` leaves |
| `PaymentProtocol.InsertAloneIsInsert` | crates/infrastructure/src/payments_repo.rs:58-89 | the two insert steps, uninterrupted, are `insert`; the id is known to callers exactly when both statements are acknowledged |
| `PaymentProtocol.AttachIsSetReference` | crates/infrastructure/src/payments_repo.rs:132-144 | the step that sets a reference is the statement, for acknowledged payments and free references |
| `PaymentStatuses.RankClimbs` | crates/payments/src/payment.rs:92-106 | a move is legal exactly when it climbs in rank or repeats a partial refund, with the three stated exclusions; a status is terminal exactly when nothing follows it |
| `PaymentStatuses.TrailRankClimbs` | crates/payments/src/payment.rs:92-106 | along a legal trail the rank never falls and stays level only between partial refunds |
| `PaymentStatuses.StatusEnteredOnce` | crates/payments/src/payment.rs:92-106 | only PartiallyRefunded is entered twice, and only its self-loop leaves the same status twice |
| `PaymentStatuses.TrailLength` | crates/payments/src/payment.rs:92-106 | a trail has at most six rows beyond its repeated partial refunds |
| `PaymentStatuses.SelfLoopsCount` | crates/payments/src/payment.rs:92-106 | the repeats counted are the rows from PartiallyRefunded to itself |
| `PaymentStatuses.TrailProgress` | crates/payments/src/payment.rs:92-106 | whatever extends a legal trail keeps or raises its rank, and nothing extends a terminal one |
| `PaymentStores.TransitionKeeps` | crates/infrastructure/src/payments_repo.rs:146-191 | the compare-and-set keeps rows, trails and index in agreement for a stale expected status, provided the caller checked the move against that status |
| `PaymentStores.TransitionTrails` | crates/infrastructure/src/payments_repo.rs:154-190 | a matching update appends one row to that payment's trail and none to any other |
| `PaymentStores.TransitionMeaning` | crates/infrastructure/src/payments_repo.rs:146-191 | a matching update changes one row in status and time, and appends one history row with the move, its cause and time; any other changes nothing |
| `PaymentStores.InsertMeaning` | crates/infrastructure/src/payments_repo.rs:58-89 | the id is answered exactly when both statements are acknowledged; a reader then finds the amount, the creation time and status Created; what each failure leaves |
| `PaymentStores.InsertCreationKeeps` | crates/infrastructure/src/payments_repo.rs:76-88 | the creation row records the payment and touches no other trail |
| `PaymentStores.SetReferenceKeeps` | crates/infrastructure/src/payments_repo.rs:132-144 | setting a reference keeps the unique index and the history, and makes the payment the one found by it |
| `PaymentStores.ReferencesIdentify` | crates/infrastructure/src/payments_repo.rs:110-130 | a lookup by reference finds a payment exactly when it carries that reference, and only recorded payments |
| `PaymentStores.ReferenceTakenIff` | crates/infrastructure/src/payments_repo.rs:132-144 | a reference is refused exactly when another payment carries it |
| `PaymentStores.Postgres.InsertPayment` | crates/infrastructure/src/payments_repo.rs:58-89 | two statements without a transaction: what each failure leaves behind, and when the id is returned |
| `PaymentStores.Postgres.SetProviderReference` | crates/infrastructure/src/payments_repo.rs:132-144 | fails exactly on a backend error or another payment's reference, an absent id is no error |
| `PaymentStores.Postgres.FindByProviderReference` | crates/infrastructure/src/payments_repo.rs:110-130 | the read the protocol's workers act on |
| `PaymentStores.Postgres.TransitionPayment` | crates/infrastructure/src/payments_repo.rs:146-191 | update and history row together or neither; Conflict exactly when no row has the expected status |
| `PaymentStores.Postgres.RecordAndClaim` | crates/infrastructure/src/payments_webhook_store.rs:48-69 | first claim of an event id answers First and inserts one receipt, every later one Duplicate and inserts none |
| `PaymentStores.Postgres.RecordRejected` | crates/infrastructure/src/payments_webhook_store.rs:28-46 | appends a rejected receipt and claims nothing |
| `PaymentWebhooks.WebhookService.HandleWebhook` | crates/application/src/payments_webhook.rs:65-121 | the whole outcome and table change of one delivery, for every failure of its four calls |
| `PaymentWebhooks.OutcomeIff` | crates/application/src/payments_webhook.rs:65-121 | the exact condition of each of the five answers, the receipt and reason of a rejection, and what a delivery that fails midway leaves |
| `PaymentWebhooks.ProcessedIff` | crates/application/src/payments_webhook.rs:65-121 | exactly when a delivery is processed, that it then changes one row and appends one history row, and that every ignored, duplicate or rejected one changes no payment |
| `PaymentWebhooks.ReceiptIff` | crates/infrastructure/src/payments_webhook_store.rs:57-68 | a verified delivery appends a receipt of its payload if and only if its event id is new and the claim takes effect; a redelivery changes no table at all |
| `PaymentWebhooks.HandleClaims` | crates/infrastructure/src/payments_webhook_store.rs:48-69 | a delivery claims exactly its own id, and moves a payment only if it claimed it anew |
| `PaymentWebhooks.ReplayEquivalence` | crates/application/src/payments_webhook.rs:65-121 | any finite sequence of deliveries leaves the payments and histories that its first claims alone leave |
| `PaymentWebhooks.RejectionsChangeNothing` | crates/application/src/payments_webhook.rs:68-80 | a rejected delivery may be inserted anywhere without changing payments or histories |
| `PaymentWebhooks.FirstClaimsDistinct` | crates/infrastructure/src/payments_webhook_store.rs:48-69 | the deliveries kept by the replay theorem claim pairwise distinct, unclaimed ids, and come from the sequence |
| `PaymentWebhooks.FirstClaimsCover` | crates/infrastructure/src/payments_webhook_store.rs:48-69 | no claimed event id is dropped by the replay theorem |
| `PaymentRefunds.PaymentsService.IssueRefund` | crates/application/src/payments.rs:122-171 | the whole outcome and ledger change of one refund, for every failure and provider answer |
| `PaymentRefunds.RefundMeaning` | crates/application/src/payments.rs:122-171 | a refund whose write takes effect changes one row to the provider's answer and records one move; every other leaves the ledger alone |
| `PaymentRefunds.RefundOutcomeIff` | crates/application/src/payments.rs:122-171 | the exact condition of each answer: success, unknown payment, status not refundable, no reference, provider failure, backend failure |
| `Lockouts.LockDurationDoublesIff` | crates/domain/src/auth.rs:306-319 | the delay is the capped doubling from the base for every counter value if and only if the base is zero, the ceiling is within 2^32 - 1 bases, or the threshold is within 32 of u32::MAX |
| `Lockouts.CappedShiftSaturatesIff` | crates/domain/src/auth.rs:311-318 | every shift of 32 or more gives the ceiling if and only if the ceiling is within 2^32 - 1 bases or the counter saturates first |
| `Lockouts.CappedShiftFallsShort` | crates/domain/src/auth.rs:310-313 | a policy whose 33rd failure waits less than both the doubling and the ceiling |
| `Lockouts.DoublingIsCappedPower` | crates/domain/src/auth.rs:306-307 | repeated capped doubling is base times a power of two, capped once |
| `Lockouts.SmallShifts` | crates/domain/src/auth.rs:308-319 | below a shift of 32 the delay is the doubling, overflow fallback included |
| `Lockouts.LargeShifts` | crates/domain/src/auth.rs:308-319 | from a shift of 32 on, the exact condition under which it still is |
| `Lockouts.LockDurationIsCappedProduct` | crates/domain/src/auth.rs:314-318 | the overflow fallback is invisible: the delay is one capped product |
| `Lockouts.LockDurationMonotone` | crates/domain/src/auth.rs:306-319 | for every policy, more failures never shorten the lock, and it never exceeds the ceiling |
| `Lockouts.RetryAfterEndsLock` | crates/domain/src/auth.rs:276-286 | retry_after is given exactly while locked and names the instant the lock ends |
| `Lockouts.FailureMeaning` | crates/domain/src/auth.rs:293-304 | a failure raises the count by one, saturating, and sets a lock from now exactly when the new count is at least one and at least max_attempts |
| `Lockouts.DelayAt` | crates/domain/src/auth.rs:306-319 | up to and at max_attempts failures the delay is the base within the ceiling; each failure more doubles it, through the two caps |
| `Lockouts.LockMeaning` | crates/domain/src/auth.rs:276-286 | a deadline locks strictly before it, and only then names a wait, the time left |
| `Logins.StreakTakesTime` | crates/application/src/auth.rs:133-204 | in every sequential run whose clock never goes back, any failure of a streak on an account or address comes no earlier than any former one plus every lock set in between, each shorter by under a second through Postgres but never below nothing; for streaks of any length |
| `Logins.LockedStreakTakesTime` | crates/application/src/auth.rs:133-204 | the same from the threshold on whatever the clock does, with a lock for every failure, as long as the stored count has not started over |
| `Logins.CounterIsStreak` | crates/application/src/auth.rs:133-204 | after every run each counter is exactly what its streak leaves, and the streak is spaced by its locks, whatever the clock does and whichever calls fail |
| `Logins.StreakLocksIff` | crates/application/src/auth.rs:133-204 | after every sequential run a counter has a deadline exactly when its streak's count has reached max_attempts and at least one, and the deadline runs from the last failure |
| `Logins.StoredMeaning` | crates/infrastructure/src/admin_repo.rs:208-228 | what reading a counter back gives: counts from 2^31 on as zero, deadlines in whole seconds through Postgres |
| `Logins.LoginMovesCounters` | crates/application/src/auth.rs:133-247 | a login records a failure, a reset or nothing on each counter as its effect says, and never moves a locked one |
| `Logins.LoginOutcome` | crates/application/src/auth.rs:133-215 | the exact condition of each of the four answers, that a success clears both counters, and how long the caller is told to wait |
| `Logins.RegisteredClosedForm` | crates/infrastructure/src/admin_repo.rs:208-213 | the counter is the streak length saturating at u32::MAX, or through Postgres its remainder past 2^31 |
| `Logins.LocksCountTheStreak` | crates/infrastructure/src/admin_repo.rs:216-228 | locks count the streak's failures exactly as long as the stored i32 does not start over |
| `Logins.EveryFailureLocksIff` | crates/infrastructure/src/admin_repo.rs:208-228 | every failure from the threshold on sets a lock if and only if the counter is exact, has not started over, or the threshold is one |
| `Logins.CounterClosedForm` | crates/domain/src/auth.rs:293-304 | the count and deadline a streak leaves depend only on its length and last instant |
| `Logins.SpacedDelay` | crates/domain/src/auth.rs:293-304 | spacing by each lock under an ascending clock adds up to the sum of the delays |
| `Logins.SpacedLocks` | crates/domain/src/auth.rs:293-304 | without the clock, spacing by a lock for every failure adds up to their durations less the slack |
| `Logins.DelayCoversLocks` | crates/domain/src/auth.rs:293-304 | the two sums compared: equal with exact deadlines, the former never smaller |
| `Logins.UnknownAccountLooksTheSame` | crates/application/src/auth.rs:127-130 | a wrong password and an unknown account answer alike, and move the address counter alike, exactly when the account is not locked |
| `Logins.LoginService.LogIn` | crates/application/src/auth.rs:133-204 | the whole outcome and counter change of one login, and exactly one password verification once the address is let in |
| `Logins.LoginService.UpdateLockout` | crates/infrastructure/src/admin_repo.rs:124-141 | overwrites one account's counter with what reads back |
| `Logins.LoginService.PutIpLockout` | crates/infrastructure/src/admin_repo.rs:216-232 | overwrites one address's counter with what reads back |
| `RateLimits.SlidingBound` | crates/api/src/rate_limit.rs:65-88 | in any half-open interval of any length at most maxRequests per window it spans, rounded up, and one window more are admitted |
| `RateLimits.DocumentedBound` | crates/api/src/rate_limit.rs:32-37 | one window's length admits at most 2 * maxRequests, for every log with fewer than 2^32 + maxRequests checks in any window's length |
| `RateLimits.DocumentedBoundIff` | crates/api/src/rate_limit.rs:32-37 | that bound holds of all logs with at most n checks in any window's length if and only if n is below 2^32 + maxRequests |
| `RateLimits.SlidingBoundIff` | crates/api/src/rate_limit.rs:65-88 | the sliding bound over every interval holds of all logs with at most n checks in any window's length if and only if n is below 2^32 |
| `RateLimits.TwoWindowsAtMost` | crates/api/src/rate_limit.rs:65-88 | wrapping or not, the checks of any window-long interval are the last of one window and all so far of the next, admitted by their place in each |
| `RateLimits.AdmittedSince` | crates/api/src/rate_limit.rs:65-88 | the inductive form: full quotas for finished windows, and only what it counted for the running one |
| `RateLimits.WindowsRoundsUp` | crates/api/src/rate_limit.rs:32-37 | the bound's window count is the length divided by the window, rounded up |
| `RateLimits.AdmittedIff` | crates/api/src/rate_limit.rs:65-88 | a check is admitted exactly when it is among the first maxRequests of its window, counted modulo 2^32 |
| `RateLimits.WindowCounts` | crates/api/src/rate_limit.rs:65-79 | the running window's counter is the number of checks since it started, modulo 2^32 |
| `RateLimits.RetryAfterExact` | crates/api/src/rate_limit.rs:79-84 | every check before now + retry_after is rejected and the first at or after it is admitted |
| `RateLimits.RetryAfterExactIff` | crates/api/src/rate_limit.rs:79-84 | for a positive limit that is so of all logs with at most n checks in any window's length if and only if n is below 2^32, or the limit is u32::MAX and nothing is ever rejected |
| `RateLimits.StaysExceeded` | crates/api/src/rate_limit.rs:65-88 | rejected checks do not prolong the window that rejects them |
| `RateLimits.WrappingExceedsBound` | crates/api/src/rate_limit.rs:78-79 | 2^32 + maxRequests checks at one instant get 2 * maxRequests + 1 admitted |
| `RateLimits.WrappingExceedsSlidingBound` | crates/api/src/rate_limit.rs:78-79 | 2^32 checks in each of maxRequests + 1 windows exceed the sliding bound |
| `RateLimits.ZeroWindowAdmitsAll` | crates/api/src/rate_limit.rs:72-76 | a zero window admits every check unless maxRequests is zero |
| `RateLimits.KeysAreIndependent` | crates/api/src/rate_limit.rs:65-70 | the shared map answers each key as a limiter of its own would on that key's checks |
| `RateLimits.CredentialChecksAreAdmissions` | crates/api/src/auth.rs:194-208 | an account's credential checks are exactly its key's admissions, whatever addresses they come from |
| `RateLimits.AccountBound` | crates/api/src/auth.rs:188-208 | one account's credential checks obey the sliding bound however many addresses are used |
| `RateLimits.AccountBoundIff` | crates/api/src/auth.rs:188-208 | that is so of all runs with at most n checks of the account in any window's length if and only if n is below 2^32: past that a crowd of addresses breaks a positive limit, a flood from one address the zero limit |
| `RateLimits.RateLimiter.Check` | crates/api/src/rate_limit.rs:65-88 | answer and new map of one check: one entry moves |
| `RateLimits.RateLimiter.CheckLogin` | crates/api/src/auth.rs:194-208 | the loop over both keys: the account key is touched only if the address key passed |
| `RateLimits.GateAnswer` | crates/api/src/auth.rs:188-208 | the gate's answer is the address's own when that rejects, else the account's own, waits included, each by that key's past checks |
| `RateLimits.GateLeavesItsLog` | crates/api/src/auth.rs:188-208 | the map that logins leave through the gate is the map of the checks it made, account counters stored |
| `RateLimits.CheckMeaning` | crates/api/src/rate_limit.rs:65-88 | one check whatever the clock does: when the window restarts, the new count, the verdict and the wait |
| `Sessions.SessionService.StartSession` | crates/application/src/session.rs:117-143 | one new row, or an error and none or an unacknowledged one |
| `Sessions.StartMeaning` | crates/application/src/session.rs:117-143 | when a session is issued, which token, CSRF token and deadline the caller gets, and every field of the one new row |
| `Sessions.IssuedIsUsable` | crates/application/src/session.rs:117-143 | the session token handed out has the row and authenticates at once with the CSRF token handed out, if fresh tokens do |
| `Sessions.SessionService.AuthenticateToken` | crates/application/src/session.rs:148-173 | the verdict and the touched or cleaned-up row, for every failure |
| `Sessions.AuthenticateMeaning` | crates/application/src/session.rs:148-173 | the exact condition of each answer, whose identity a success carries, and the rows each leaves |
| `Sessions.ExpiredIff` | crates/domain/src/session.rs:145-156 | a session is live exactly when seen no later than now, idle for less than the timeout, and before its deadline |
| `Sessions.SessionService.RotateToken` | crates/application/src/session.rs:195-199 | the old row goes before the new one is issued, and what each failure leaves |
| `Sessions.RotateMeaning` | crates/application/src/session.rs:195-199 | when a rotation succeeds, the new pair with the old identity and its row, that it authenticates, and the rows and reason of each failure |
| `Sessions.SessionService.Revoke` | crates/application/src/session.rs:203-205 | the row goes unless the call is lost; revoking an absent token succeeds |
| `Sessions.VerifyCsrf` | crates/domain/src/session.rs:67-87 | the loop that never stops early accepts exactly the expected token |
| `Sessions.VerifyCsrfHeader` | crates/application/src/session.rs:178-187 | a request passes exactly with a header equal to the session's token |
| `SessionTraces.AcceptsIff` | crates/application/src/session.rs:117-205 | after any sequential run, whichever store calls fail, a token authenticates if and only if it was issued, never revoked or rotated away, is before its absolute deadline, and no gap between uses reaches the idle timeout; the uses are read off the trace alone |
| `SessionTraces.CleanupNeverMatters` | crates/application/src/session.rs:160-164 | runs that differ only in how the best-effort deletions ended accept the same tokens |
| `SessionTraces.RowsFitLives` | crates/application/src/session.rs:117-205 | the invariant over runs with failing calls: a surviving token has a row with its first and last instants, a dead one none or an expired one |
| `SessionTraces.SurvivesIff` | crates/domain/src/session.rs:145-156 | surviving every check is having every gap short and the last instant before the deadline |
| `SessionTraces.TruncationIsStricter` | crates/infrastructure/src/session_repo.rs:38-108 | every authentication the whole-second store accepts over a whole run, the exact one accepts |
| `SessionTraces.SlackAccepts` | crates/infrastructure/src/session_repo.rs:38-108 | when accepted checks always leave a second of slack both stores give the same answers |
| `SessionTraces.OneLiveDescendant` | crates/application/src/session.rs:189-199 | in sequential runs, whichever calls fail, a login has at most one live token through any number of rotations, with its admin and role |
| `SessionTraces.CsrfStays` | crates/application/src/session.rs:117-173 | a live token keeps the CSRF token of the event that issued it |
| `SessionRaces.DeletedStaysDeleted` | crates/infrastructure/src/session_repo.rs:96-117 | in every interleaving of store calls, no late touch brings back a deleted token |
| `SessionRaces.IdentitiesComeFromLogins` | crates/application/src/session.rs:117-199 | in every interleaving each row carries the admin and role of the login it descends from |
| `SessionRaces.ConcurrentRotationsFork` | crates/application/src/session.rs:195-199 | from any state with one live token a login, letting an overlapping rotation and the one it overlaps go on leaves two rows of one login, and both tokens authenticate at the overlap's instant if a fresh one does |
| `SessionRaces.OneLiveTokenPerLogin` | crates/application/src/session.rs:189-199 | in every interleaving with failures, revocations and cleanups in which rotations of one token never overlap, a login has at most one live token |
| `SessionRaces.OneRowIff` | crates/application/src/session.rs:189-199 | a login has at most one row, however the requests of a run interleave and finish, if and only if no rotation reads a live token another rotation has read and not yet deleted |
| `SessionRaces.OneLiveTokenIff` | crates/application/src/session.rs:189-199 | for timeouts under which fresh tokens authenticate, at most one token of a login authenticates at any instant, under the very same condition |
| `SessionRaces.FreshIsLiveIff` | crates/domain/src/session.rs:145-156 | a token authenticates at the instant it is issued, whatever the instant, if and only if both timeouts are positive, or at least a second through Postgres |
| `SessionRaces.StepKeepsOneActive` | crates/application/src/session.rs:148-205 | every step that is no overlap keeps the invariant: live tokens and tokens under rotation all descend from different logins, each pursued by one rotation |
| `SessionRaces.RequestAloneIsAuthenticate` | crates/application/src/session.rs:148-173 | the calls of one request, uninterrupted, are `authenticate` for every failure, in either store |
| `SessionRaces.RequestAloneIsRotate` | crates/application/src/session.rs:195-199 | the calls of one rotation, uninterrupted, are `rotate` for every failure, in either store |
| `SessionRaces.IssueIsStart` | crates/application/src/session.rs:117-143 | the issuing step leaves the rows of `start` |
| `SessionRaces.RevokeStepIsRevoke` | crates/application/src/session.rs:203-205 | the revoking step is `revoke`, and the token's row survives only a lost call |
| `OAuthProtocol.ExchangesMatchFlows` | crates/application/src/oauth.rs:124-197 | in every interleaving each exchange goes to the provider, and carries exactly the nonce, verifier and redirect, of one flow started before it and no more than the TTL ago, with the state and code its callback came with, and no flow is redeemed twice |
| `OAuthProtocol.SignInsRedeemFlows` | crates/application/src/oauth.rs:163-214 | every callback that signs somebody in redeemed a flow no other callback redeems |
| `OAuthProtocol.RunKeeps` | crates/infrastructure/src/oauth_repos.rs:55-90 | every step keeps the invariant: a consumed row is gone from the table and held by one callback |
| `OAuthProtocol.LinksNeverMove` | crates/infrastructure/src/oauth_repos.rs:132-154 | no interleaving moves a link to another admin or adds an account |
| `OAuthProtocol.CallbackAloneIsComplete` | crates/application/src/oauth.rs:163-247 | a callback's steps, uninterrupted, are `complete`, and exactly when it sends which exchange, field by field |
| `OAuthProtocol.BeginIsStart` | crates/application/src/oauth.rs:124-152 | a start with a fresh state is `begin`, and a redirect carries the stored flow's state, nonce and address |
| `OAuthLinks.SignInsReturnLinksIff` | crates/application/src/oauth.rs:216-247 | in every interleaving each sign-in returns the admin its identity is linked to, if and only if any two answers of one configured provider for one subject whose addresses have accounts name one admin |
| `OAuthLinks.RunAgrees` | crates/application/src/oauth.rs:218-247 | the invariant behind it: links, pending links and resolved admins all agree with the answers |
| `OAuthLinks.RacingSignInsDisagree` | crates/application/src/oauth.rs:218-247 | two answers of a configured provider that name different admins: a run from the empty tables in which a sign-in returns one admin and the link names the other |
| `OAuthLogins.SignInLinks` | crates/application/src/oauth.rs:154-247 | a sign-in leaves the identity linked to the admin it returns, moves no other link, and never provisions an account |
| `OAuthLogins.OAuthLoginService.BeginFlow` | crates/application/src/oauth.rs:124-152 | the outcome and stored row of one `begin`, for every failure |
| `OAuthLogins.BeginMeaning` | crates/application/src/oauth.rs:124-152 | when `begin` redirects or refuses, the state, nonce, challenge and address it sends, and every field of the row it stores |
| `OAuthLogins.TrimSlashesMeaning` | crates/application/src/oauth.rs:114-120 | the address starts with the origin less all its trailing slashes |
| `OAuthLogins.OAuthLoginService.Consume` | crates/infrastructure/src/oauth_repos.rs:55-90 | fetch and delete in one statement; a lost answer still deletes |
| `OAuthLogins.OAuthLoginService.ResolveAdmin` | crates/application/src/oauth.rs:218-247 | an existing link wins, else the account of the address is linked, else refusal |
| `OAuthLogins.ResolveMeaning` | crates/application/src/oauth.rs:197-247 | who signs in as whom and with which role, the exact condition of each refusal, and the one link that may be made |
| `OAuthLogins.OAuthLoginService.CompleteFlow` | crates/application/src/oauth.rs:163-214 | the outcome, exchange and table change of one `complete`, for every failure |
| `OAuthLogins.CompleteMeaning` | crates/application/src/oauth.rs:163-214 | when `complete` sends an exchange, its code, verifier, redirect and nonce, the exact condition of each refusal up to it, and that the row is consumed whatever follows |
| `Migrations.ModuleRegistry.RunMigrations` | crates/contracts/src/registry.rs:57-81 | applies the plan in order up to the first failure; a duplicate name applies nothing |
| `Migrations.ModuleRegistry.RunModule` | crates/contracts/src/registry.rs:64-79 | the inner loop continues the plan by one module's migrations |
| `Migrations.ModuleRegistry.EnsureUniqueNames` | crates/contracts/src/registry.rs:100-108 | reports the first name an earlier module has |
| `Migrations.FirstDuplicateIff` | crates/contracts/src/registry.rs:97-108 | a registry passes exactly when its names are pairwise distinct, and the name reported is shared by two modules |
| `Migrations.Executor.IsApplied` | crates/contracts/src/migration.rs:76-78 | the scan finds exactly the recorded ids |
| `Migrations.Executor.Apply` | crates/contracts/src/migration.rs:80-83 | a success records the id last, a failure records nothing |
| `Migrations.RunAppliesPending` | crates/contracts/src/registry.rs:57-81 | a run fails exactly when a pending id is broken; otherwise it applies exactly the pending ids, in order, once, and reports every plan entry as applied or skipped |
| `Migrations.PlanAt` | crates/contracts/src/registry.rs:52-66 | where each migration stands in the plan: modules as registered, migrations as declared, each under module::name |
| `Migrations.PendingKeepsOrder` | crates/contracts/src/registry.rs:52-56 | of two pending ids the one earlier in the plan is applied first |
| `Migrations.FailedRunStops` | crates/contracts/src/registry.rs:71-76 | a failed run stops at the first broken pending id and leaves exactly the pending ids before it |
| `Migrations.ResumingReachesTheSame` | crates/contracts/src/migration.rs:44-50 | after any number of runs, failed anywhere, a successful one leaves what one uninterrupted run leaves |
| `Migrations.RunLeavesTheRest` | crates/contracts/src/registry.rs:57-81 | what a run applied and what it left pending is together what was pending, in order |
| `Migrations.SecondRunAppliesNothing` | crates/contracts/src/migration.rs:44-50 | after a successful run another one applies nothing |
| `Migrations.NamespacesCollideIff` | crates/contracts/src/registry.rs:50-66 | two module names can never produce one id if and only if neither, with its separator, begins the other |
| `Migrations.ColonFreeIdsAreInjective` | crates/contracts/src/registry.rs:66 | without colons in module names an id determines module and migration |
| `Migrations.ColonFreeNamesAreIsolated` | crates/contracts/src/registry.rs:50-66 | distinct colon-free names are isolated |
| `Migrations.ModulesRunInIsolation` | crates/contracts/src/registry.rs:50-81 | one module's part of a successful run is what running that module alone leaves |
| `PaymentQueries.CompilationPreservesMeaningIff` | crates/infrastructure/src/payments_repo.rs:304-341 | the compiled clause selects exactly the wanted rows, for all rows, if and only if the bounds are whole seconds from the epoch on, or leave no second anyway |
| `PaymentQueries.CompiledSelects` | crates/infrastructure/src/payments_repo.rs:304-341 | which rows the clause selects for every query: bounds cut to seconds, none at all for a bound before the epoch |
| `PaymentQueries.CompileIsLockstep` | crates/infrastructure/src/payments_repo.rs:283-331 | for every subset of filters the i-th condition names the i-th argument |
| `PaymentQueries.PagingArgsSelectNothing` | crates/infrastructure/src/payments_repo.rs:238-241 | the paging arguments added after the filters do not change which rows match |
| `PaymentQueries.RequestsAreFaithful` | crates/api/src/transactions.rs:196-205 | every query the endpoint builds is compiled faithfully, with a limit the repository does not cap further |
| `PaymentQueries.RequestMeaning` | crates/api/src/transactions.rs:196-205 | which rows a request wants by its own fields, the limit of 50 it defaults to, and where each bound goes |
| `PaymentQueries.OrderedSorts` | crates/infrastructure/src/payments_repo.rs:243-250 | the listing is newest first, ties by id, a permutation of the selected rows |
| `PaymentQueries.NewestFirst` | crates/infrastructure/src/payments_repo.rs:248 | of any two listed rows the earlier is the newer, or of one second the one of the higher id |
| `PaymentQueries.PageMeaning` | crates/infrastructure/src/payments_repo.rs:236-248 | a page is the listing from the offset on, for a limit of at least 1 and at most 200 |
| `PaymentQueries.AllMatchesMeaning` | crates/infrastructure/src/payments_repo.rs:230-275 | the full listing holds each wanted row as often as the table does and no other, and `count` is its length |
| `PaymentQueries.PagesConcatenate` | crates/infrastructure/src/payments_repo.rs:230-258 | the first n pages, stepping by the capped limit, are a prefix of the full listing, and all of it once the offset reaches `count` |
| `PaymentQueries.FilterSql.AddArg` | crates/infrastructure/src/payments_repo.rs:299-303 | the placeholder read before adding is the added argument's 1-based place |
| `PaymentQueries.FilterSql.PushConditions` | crates/infrastructure/src/payments_repo.rs:306-331 | adds the query's conditions and arguments to whatever the builder holds |
| `PaymentQueries.ListPayments` | crates/infrastructure/src/payments_repo.rs:230-258 | running the built statement with its numbered paging arguments returns the page of the listing |
| `WebhookSignatures.EncodeHex` | crates/infrastructure/src/tokens.rs:28-37 | the loop writes the two-digit lower-case encoding |
| `WebhookSignatures.DecodeHex` | crates/infrastructure/src/payments_stripe_webhook.rs:167-179 | the loop with its early exits decodes, or answers None |
| `WebhookSignatures.ParseSignatureHeader` | crates/infrastructure/src/payments_stripe_webhook.rs:151-163 | the loop over parts with its early exit parses the header |
| `WebhookSignatures.DecodesIff` | crates/infrastructure/src/payments_stripe_webhook.rs:165-179 | a string decodes exactly when it has even length and only hex digits |
| `WebhookSignatures.DigitMeaning` | crates/infrastructure/src/tokens.rs:32-35 | the sixteen digits, lower case out, either case in |
| `WebhookSignatures.DecodeInvertsEncode` | crates/infrastructure/src/payments_stripe_webhook.rs:167-179 | decoding inverts the encoding for every byte string |
| `WebhookSignatures.EncodeInvertsDecode` | crates/infrastructure/src/tokens.rs:28-37 | re-encoding a decoded string gives its lower-case form |
| `WebhookSignatures.DecimalRoundTrip` | crates/infrastructure/src/payments_stripe_webhook.rs:157 | every u64 parses back from its decimal form |
| `WebhookSignatures.ParseU64Iff` | crates/infrastructure/src/payments_stripe_webhook.rs:157 | exactly the strings that parse, and to what |
| `WebhookSignatures.DecimalIsShortest` | crates/infrastructure/src/payments_stripe_webhook.rs:104 | the timestamp under the MAC has no leading zero |
| `WebhookSignatures.ParseHeaderIff` | crates/infrastructure/src/payments_stripe_webhook.rs:149-163 | a header parses exactly when every part has an '=', the last `t` is a u64 and there is a `v1`; the last `t` and the first `v1` decide |
| `WebhookSignatures.SplitJoins` | crates/infrastructure/src/payments_stripe_webhook.rs:154 | the parts are free of commas and joined by commas give the header back |
| `WebhookSignatures.PairMeaning` | crates/infrastructure/src/payments_stripe_webhook.rs:155 | a part splits at its first '=' and fails without one |
| `WebhookSignatures.TrimMeaning` | crates/infrastructure/src/payments_stripe_webhook.rs:156-158 | trimming drops spaces at both ends, all of them, and nothing else |
| `WebhookSignatures.HeaderRoundTrip` | crates/infrastructure/src/payments_stripe_webhook.rs:149-179 | a printed header parses back to its timestamp and signature |
| `WebhookSignatures.SignedPayloadVerifies` | crates/infrastructure/src/payments_stripe_webhook.rs:85-116 | a signed payload verifies exactly while its timestamp is within tolerance, and another payload under its header only if the MACs agree |
| `WebhookSignatures.VerifiesIff` | crates/infrastructure/src/payments_stripe_webhook.rs:85-110 | acceptance in full: a header that parses, a clock within tolerance on either side, and the hex of the MAC of timestamp and payload |
| `WebhookSignatures.SignedBytesAt` | crates/infrastructure/src/payments_stripe_webhook.rs:101-106 | the bytes under the MAC are the decimal timestamp, a dot and the payload |
| `WebhookSignatures.SignedBytesIdentify` | crates/infrastructure/src/payments_stripe_webhook.rs:101-106 | they determine timestamp and payload |
| `Navigation.CollectNavFilters` | apps/web/src/shell/compose.ts:15-26 | the menu for a role is the full menu's order-preserving subsequence of items whose feature and own roles let the role in |
| `Navigation.CollectNavSorts` | apps/web/src/shell/compose.ts:9-26 | without a role the menu is every declared item, stably sorted by weight |
| `Navigation.ShownIff` | apps/web/src/shell/compose.ts:15-19 | an item is in the menu for a role exactly when some feature lists it and both let the role in |
| `Navigation.VisibleIff` | packages/feature-kit/src/index.ts:76-78 | who is let in, by the two role lists themselves |
| `Navigation.MenuIsOrdered` | apps/web/src/shell/compose.ts:21-24 | a later item never has a smaller order, one without an order counting as 100 |
| `Navigation.DeclaredAt` | apps/web/src/shell/compose.ts:18-20 | the declaration order: features as registered, entries as listed, with their feature's roles |
| `Navigation.SortIsStable` | apps/web/src/shell/compose.ts:20-24 | items of equal weight keep their declaration order |
| `Navigation.SortsAgree` | apps/web/src/shell/compose.ts:20-25 | sorting indexed items with the comparator is the stable sort by weight |
| `Navigation.KeepCommutes` | apps/web/src/shell/compose.ts:15-26 | filtering commutes with the stable sort, whatever the filter |
| `Navigation.FiltersAreOne` | apps/web/src/shell/compose.ts:16-19 | filtering features and then their items is one filter on the declared items |

## Left out

- HTTP, cookies, extractors, middleware, telemetry, OpenAPI, configuration, UI components and deployment scripts: plumbing without an invariant.
- Argon2, SHA-256, HMAC, base64, JSON and the random generator: the MAC is a function parameter, the others are inputs.
- SQL as text: each statement or transaction is one atomic step, and a condition is a comparison with a numbered placeholder.
- Two refunds at the provider: `refund` calls the provider before the compare-and-set, so only the recorded ledger is guarded.
- Every event eventually applied: the claim comes first, so an event whose apply failed is answered as a duplicate from then on.
- Lockout under concurrent logins: the counters are read, then overwritten, so the results are about logins one at a time.
- Logins.LockedStreakTakesTime: without a clock that never goes back, stated as long as every failure past the threshold sets a lock; `Logins.EveryFailureLocksIff` says exactly when.
- The Retry-After header, which floors the limiter's exact duration to seconds.
- Overflow of SystemTime plus a Duration, which panics in the original; instants before the epoch in the stores.
- An absolute deadline kept across `rotate`: `start` renews it.
- The role returned by `complete` being the linked admin's: it is looked up by the identity's email.
- Rows that no longer parse (statuses, roles, provider ids, emails): the write path stores none.
- Ordered timestamps in the history, and `total` and `items` being one snapshot.
- The mapping of provider event types to statuses, the parsing of statuses, emails, roles and currencies, the password policy: single tables and checks.
- WebhookSignatures.DecodeHex: works on characters, not on UTF-8 bytes; a non-ASCII character makes both fail.
- Navigation weights that are not numbers, route paths and their duplicates.
- Module init hooks and routers; migrations whose SQL is partly applied.
- The audit log and account bootstrap.
