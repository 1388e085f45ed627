# Per-user request quota of a story-generation chat bot

This project models the quota check that the bot runs before it generates a
story for a user (`userAccess` in `firestore.go`). The bot keeps one document
per user ID in its `users` collection. The document holds `username`,
`totalCalls`, `minuteCalls` and `lastAccessed` (Unix seconds). A user may make
`callsPerMin = 2` requests per 60-second window. The window opens at the
user's first request and reopens at the first request after it runs out.

The model has four parts.

- `GoInt` (`goint.dfy`): Go's `int64` and its two's-complement wrap-around
  (`Wrap64`). Every subtraction and increment in the check goes through it.
- `Quota` (`quota.dfy`): the pure decision.
  - `Doc` is a stored document. A field that is missing or not an `int64` is
    `None` and reads as 0, as the source's `x, _ = m[k].(int64)` does.
  - `Decide` admits a request and gives the `Record` to write, or denies it
    with a cooldown.
  - `Stored` gives what the user's slot holds afterwards.
  - Lemmas state each branch and the invariants.
- `QuotaTrace` (`trace.dfy`): successive requests by one user. Each request
  sees what the ones before it stored. Lemmas by induction cover the
  counters and the cooldowns over whole runs.
- `UserStore` (`store.dfy`): the `users` collection as a class holding a
  `map<string, Doc>`.
  - `Admit` runs the source's step-by-step updates of its local counters.
  - It overwrites the caller's document in place on admission.
  - It is proved to agree with `Decide` and to leave every other user's
    document alone.

Inputs that the source takes from outside are parameters here:

- the current time (`time.Now().Unix()`) is `now`;
- whether the store's `Get` returned a snapshot is `getOk`.

## Model

| member | source | states |
|---|---|---|
| `GoInt.Wrap64` | firestore.go:72-84 | The `int64` result of an addition or subtraction. It is the exact value when that is representable, and it is off by 2^64 when the operation overflows once. |
| `Quota.ToDoc` | firestore.go:88-95 | The written document holds `username` and all three counters as `int64`s. Reading it back with the source's field reads gives the record that was written. |
| `Quota.Decide` | firestore.go:54-86 | An admission always stores the supplied username, and its `minuteCalls` never exceeds `callsPerMin`. A request is denied exactly when a stored document exists, fewer than 60 seconds have elapsed since its `lastAccessed`, and its `minuteCalls` has reached `callsPerMin`. |
| `Quota.Stored` | firestore.go:72-95 | A denial leaves the stored document as it was. An admission stores exactly the written record: the new username, both counters and `lastAccessed`. |
| `Quota.NewUserAdmitted` | firestore.go:54-95 | A user with no document is admitted, and `{username, 1, 1, now}` is written. |
| `Quota.QuotaReachedDenied` | firestore.go:72-75 | Inside the window with the quota used up, the request is denied. The cooldown is `60 - elapsed`, and the stored document is unchanged. |
| `Quota.BelowQuotaAdmitted` | firestore.go:73-80 | Inside the window below the quota, the request is admitted. `minuteCalls` rises by 1 and `totalCalls` rises by 1, wrapping only at the `int64` maximum. `lastAccessed` keeps its stored value. |
| `Quota.WindowExpiredAdmitted` | firestore.go:81-85 | After 60 seconds or more, the request is admitted and a new window opens. `minuteCalls` is 1, `totalCalls` is the stored value plus 1, and `lastAccessed` is `now`. |
| `Quota.WindowStartMovesOnlyOnNewWindow` | firestore.go:72-85 | An admission sets `lastAccessed` to `now`, or it is inside an open window and keeps the stored start. |
| `Quota.CooldownInRange` | firestore.go:72-75 | A denial's cooldown lies in 1..60 when `now >= lastAccessed` and the elapsed time fits in an `int64`. |
| `Quota.CooldownWhenElapsedWraps` | firestore.go:71-75 | If the stored `lastAccessed` is the `int64` minimum, then from time 61 on the subtraction wraps. The window then looks open, and a user at quota is denied with a cooldown far above 60. |
| `Quota.MissingLastAccessedIsExpired` | firestore.go:71-85 | A document without `lastAccessed` counts as a window opened at time 0. From time 60 on, the request opens a new window. |
| `Quota.MissingCountersStartFromZero` | firestore.go:68-85 | Missing counters read as 0. The request is admitted with both counters written as 1. |
| `Quota.MinuteBoundPreserved` | firestore.go:73-83 | If the stored `minuteCalls` is at most 2, it is still at most 2 after any request. |
| `Quota.TotalCallsCountsAdmission` | firestore.go:72-95 | An admission raises the stored `totalCalls` by exactly 1. A denial leaves it as it was and creates no document. |
| `QuotaTrace.Run` | firestore.go:51-98 | A run gives one decision per request. When every request in the run is denied, the stored document is unchanged. |
| `QuotaTrace.TotalCallsCountAdmissions` | firestore.go:72-95 | Over any run without overflow, `totalCalls` grows by exactly the number of admitted requests. |
| `QuotaTrace.MinuteBoundAlongRun` | firestore.go:73-83 | Over any run from a document within the quota, the stored `minuteCalls` stays at most 2. |
| `QuotaTrace.DeniedUntilWindowEnds` | firestore.go:72-75 | Once the quota is used up, every request before the window closes is denied with `60 - elapsed`, and nothing is written. |
| `QuotaTrace.BurstInOneWindow` | firestore.go:54-80 | A new user's requests all fall within 60 seconds of the first. The first two are admitted, and each later one is denied with cooldown `60 - (t - t0)`. The stored counters end at the number admitted, and the window start stays at the first request. |
| `QuotaTrace.Scenario` | firestore.go:51-98 | Requests at t=0 and t=10 are admitted, leaving `minuteCalls = 2`. The request at t=30 is denied with cooldown 30. The request at t=61 is admitted with `minuteCalls = 1`, `totalCalls = 3` and `lastAccessed = 61`. |
| `UserStore.OutcomeOf` | firestore.go:72-97 | An admission is reported as success. A denial is reported as a too-many-requests error carrying the cooldown. |
| `UserStore.QuotaStore.Get` | firestore.go:52-53 | The read returns the user's stored document, or nothing when the user has none. |
| `UserStore.QuotaStore.Admit` | firestore.go:51-98 | A failed read reports failure and writes nothing. Otherwise the outcome is `Decide`'s. Only an admission writes, and it overwrites just `userID`'s document, with the supplied username. Every other user's document is unchanged, and the quota bound on stored counters is preserved. On a successful read, the user's slot afterwards is `Stored` of the old slot and the decision, so `QuotaTrace.Run` describes successive calls. |

## Left out

- The message text of `tooManyRequestsError.Error` (firestore.go:47-49) is pure formatting. Only the integer cooldown is carried.
- Store failures are a boolean parameter, `getOk`. It stands for `Get` returning no snapshot, which the Firestore client does only together with an error. The failed `Set` (firestore.go:95), whose error the source ignores, is not modelled: every write succeeds. The `log.Println` that precedes the failed return (firestore.go:62) is logging only and is not modelled.
- Concurrency is not modelled. The source reads with `Get` and later writes with `Set`, and the two steps are not atomic. Two simultaneous requests by one user can therefore both pass the check. The model runs requests one after another and says nothing about such races.
- The clock is `now`, an `int64` parameter. Go's `int` is taken to be 64 bits wide.
- Client creation, the context and the Firestore library (firestore.go:12-41) are not part of this model.
- main.go is not part of this model. It covers the chat-platform session, command registration, the text-generation HTTP call and the replies.
- Quota.CooldownInRange: requires that `now - lastAccessed` fits in an `int64`, not only that `now >= lastAccessed`. When the subtraction wraps, the cooldown can exceed 60, as `Quota.CooldownWhenElapsedWraps` shows.
- Quota.BelowQuotaAdmitted: "`totalCalls` rises by exactly 1" holds below the `int64` maximum. At the maximum, the source's `++` wraps to the minimum, and the contract states that wrapped value.
- Quota.WindowExpiredAdmitted: the same `int64` limit on "`totalCalls` rises by exactly 1" applies.
- QuotaTrace.TotalCallsCountAdmissions: requires that the starting `totalCalls` plus the number of requests stays within the `int64` maximum.
- A document's `username` is written on every admission but never read back. It has no effect on the decision.
- `userAccess` returns `nil` on admission and reports no counters, so `Admitted` carries none. A new user's counters are set straight to 1.
