# Regression-model lifecycle manager, modelled in Dafny

The system accepts "regression model" training jobs over a GraphQL API. Each
job is a row of a `models` table owned by the calling user. A row starts
`PENDING` and is flipped to `COMPLETED` by a timer that fires
`EXECUTION_TIME` (60 000 ms) after creation. Callers poll `modelStatus` for
the remaining wait. They may `predict` with a completed model, list their
models with `getAllModels`, and remove one with `deleteModel`. An owner may
hold at most five models.

This project models that lifecycle manager (the resolvers of `resolver.ts`):

- `types.dfy` (module `ModelTypes`): rows (`Entry`, `Model`), the table
  (`Store`: a map from id to row plus the next value of the id sequence), the
  `alpha` argument, the error kinds, and the constants `ExecutionTime` and
  `MaxModels`.
- `store.dfy` (module `ModelStore`): the SQL queries as pure functions over
  the map. These are lookup by id and owner, listing by owner in id order,
  insert with a fresh id, status update by id, and delete.
- `lifecycle.dfy` (module `Lifecycle`): one pure function per resolver, plus
  `Complete`, the deferred completion step. Mutations return
  `Result<(Store, Model), Error>`. Reads return only their output, so they
  cannot change the table.
- `machine.dfy` (module `Machine`): the table as a state machine. Its
  transitions are create, completion and delete. It proves invariants over
  every run of transitions: the quota, alpha well-formedness, status
  monotonicity, and that a deleted id never reappears.
- `scenarios.dfy` (module `Scenarios`): what each read returns after a
  create, a completion or a delete, and how a delete and a late completion
  of the same model combine.

Modelling choices:

- Time is an integer number of milliseconds passed in as `now`. The clock is
  a parameter.
- The caller's `userId` is the `owner` parameter.
- The timer is the transition `Complete(s, id)`. Any run may apply it at any
  point after the create, including after the model was deleted.
- The `alpha` argument is `Omitted` (JavaScript `undefined`), `Null` (an
  explicit GraphQL `null`) or `Given(v)`. The check at resolver.ts:106 is
  `alpha !== undefined && alpha <= 0`. JavaScript evaluates `null <= 0` as
  true, so LASSO or RIDGE with an explicit `null` alpha is rejected with
  `InvalidArgument`. The model keeps this behaviour of the code.
- The quota is checked exactly as written: `rowCount === 5`, not `>= 5`.
  `Machine.CreateFailsExactlyWhen` proves that the two tests agree on every
  table the manager can reach. `Machine.QuotaTestNeedsInvariant` shows that
  the equality test alone would let an owner who already has six models
  create a seventh.
- `getAllModels` runs SQL with no `ORDER BY`, so the database promises no
  order. The model chooses ascending id order; the order is the model's,
  not the query's.
- The INSERT at resolver.ts:111 writes neither `id` nor `created_at`; both
  come from column defaults of a table definition that is not part of this
  model. The model assumes a serial `id` (a deleted id is never handed out
  again; `Store.nextId` models that sequence) and a `created_at` that
  defaults to the current time, the `now` passed to createModel. It also
  assumes `created_at` is a timestamp column that the database driver hands
  back as a `Date`, so `Date.now() - model.created_at` at resolver.ts:58 is a
  difference in milliseconds. The source's own `DBRow` type (resolver.ts:13)
  declares the column a `string`; were it one, the difference would be `NaN`
  and every PENDING wait would come out as 0.

## Model

| member | source | states |
|---|---|---|
| ModelStore.Lookup | resolver.ts:27-35 | the id-and-owner query finds a row exactly when the id exists and belongs to the caller, so another owner's row looks absent |
| ModelStore.ListBelow | resolver.ts:85-88 | the owner's rows below a bound, each equal to its stored row and each owned row appearing, in the strictly increasing id order the model chooses for the query |
| ModelStore.ListByOwner | resolver.ts:85-88 | the owner query returns only the owner's rows as stored and, on a valid table, every one of them, in the ascending id order the model chooses |
| ModelStore.CountByOwner | resolver.ts:116-117 | the `rowCount` of the owner query is, on a valid table, the number of distinct ids the owner holds |
| ModelStore.ListBelowCardinality | resolver.ts:116-117 | the listing below a bound has exactly one entry per id the owner holds below that bound |
| ModelStore.Insert | resolver.ts:111-122 | an insert stores the row under the next id of the sequence; on a valid table that id is fresh and the table stays valid |
| ModelStore.UpdateStatus | resolver.ts:132 | the update by id changes only that row's status, ignores the owner, and changes nothing when the id is gone |
| ModelStore.Remove | resolver.ts:160-161 | the delete removes exactly the given id and keeps every other row |
| ModelStore.ListByOwnerAfterInsert | resolver.ts:115-122 | an insert appends the new row to its owner's listing and leaves every other owner's listing unchanged |
| Lifecycle.AlphaRejected | resolver.ts:106 | the alpha check never rejects LINEAR or an omitted alpha; for LASSO and RIDGE it rejects an explicit null (`null <= 0` is true in JavaScript) and rejects a number exactly when it is not positive |
| Lifecycle.StoredAlpha | resolver.ts:121 | a stored alpha exists exactly for a non-LINEAR model given a numeric alpha, and equals it; LINEAR always stores none |
| Lifecycle.CreateModel | resolver.ts:104-140 | a rejected alpha fails with InvalidArgument whatever the table holds (checked before the quota); an owner with five models gets QuotaExceeded; an accepted alpha (LINEAR, omitted, or positive) under quota always succeeds, and InvalidArgument comes only from a rejected alpha; success adds exactly one row under a fresh id with the caller as owner, PENDING status, creation time `now` (the assumed `created_at` default) and normalised alpha, and every other row is untouched |
| Lifecycle.Complete | resolver.ts:130-137 | the completion sets only that id's row to COMPLETED, whoever owns it, and is a no-op once the row is deleted |
| Lifecycle.Remaining | resolver.ts:57-66 | the remaining wait is the training time minus the elapsed time, clamped at 0, and never more than the training time when elapsed time is non-negative |
| Lifecycle.ModelStatus | resolver.ts:47-77 | a missing id and another owner's id both give NotFound; otherwise the row itself with a wait of at least 0, at most the training time when created no later than `now`, 0 when COMPLETED or without a creation time, and while PENDING exactly max(0, training time − (now − creation time)) |
| Lifecycle.Predict | resolver.ts:26-40 | NotFound exactly when the caller owns no row with that id; NotReady exactly when the owned row is not COMPLETED; otherwise `x + 1` |
| Lifecycle.GetAllModels | resolver.ts:84-96 | the listing holds only the caller's rows as stored and, on a valid table, every one of them, one entry per id the caller holds; its length is the `rowCount` the quota check reads; the increasing id order is the model's choice |
| Lifecycle.DeleteModel | resolver.ts:142-161 | a missing id or another owner's id fails with NotFound; otherwise exactly that row is removed and returned as it last was, and the id sequence is unchanged |
| Machine.CreateCounts | resolver.ts:115-122 | a successful create raises its owner's model count by one and leaves every other owner's count unchanged |
| Machine.StepPreservesInv | resolver.ts:104-161 | create, completion and delete each keep ids below the sequence, every owner at five models or fewer, and every stored alpha positive and on a LASSO or RIDGE model |
| Machine.RunPreservesInv | resolver.ts:104-161 | any sequence of creates, completions and deletes keeps that invariant |
| Machine.QuotaFromEmpty | resolver.ts:115-119 | starting from an empty table, no run of transitions gives any owner more than five models |
| Machine.CreateFailsExactlyWhen | resolver.ts:106-119 | on a reachable table a create fails exactly when the alpha is rejected or the owner already holds five or more models, so the `=== 5` test acts as `>= 5` |
| Machine.QuotaTestNeedsInvariant | resolver.ts:117 | on a table where an owner already has six models, the `=== 5` test lets a seventh create through |
| Machine.StepMonotone | resolver.ts:130-137 | a row that survives a transition keeps its owner, type, alpha and creation time, and its status never returns from COMPLETED to PENDING |
| Machine.RunMonotone | resolver.ts:130-137 | the same holds across any run of transitions for a row present at both ends |
| Machine.NoResurrection | resolver.ts:130-137 | an id that was handed out and is no longer in the table stays absent through any run; a completion after the delete does not bring it back and no create reuses it |
| Scenarios.CreateThenRead | resolver.ts:47-68 | right after a create the owner sees the model PENDING with the full training time left, cannot predict yet, and finds it last in the listing (under the model's id order); other owners see neither the model nor any change to their listing |
| Scenarios.CompleteThenRead | resolver.ts:36-40 | after the completion fires the owner sees COMPLETED with no wait, and predict returns `x + 1` |
| Scenarios.OverdueStaysPending | resolver.ts:57-67 | a PENDING model past its training time reports PENDING with a wait of 0 and still refuses predict: a read never completes a model |
| Scenarios.CompleteIdempotent | resolver.ts:132 | applying the completion twice gives the same table as applying it once |
| Scenarios.DeleteThenRead | resolver.ts:142-161 | after a delete, status, predict and a second delete on that id fail with NotFound for every caller, the owner included, and the listing is the old one without the deleted model |
| Scenarios.DeleteWinsRace | resolver.ts:130-161 | whichever runs first, a delete and the completion of the same model end in the same table, and a completion after the delete is a silent no-op |
| Scenarios.ForeignModelHidden | resolver.ts:27-32 | for a caller who does not own the model, status, predict and delete give the same NotFound as when the model is absent, and the delete changes nothing |
| Scenarios.NullAlphaOutcome | resolver.ts:106-121 | an explicit null alpha makes LASSO and RIDGE creates fail with InvalidArgument, while a LINEAR create never fails on it and stores no alpha |
| Scenarios.RejectedAlphaLeavesStore | resolver.ts:106-108 | a rejected alpha leaves the table unchanged and only happens for LASSO or RIDGE |

## Left out

- The HTTP server, GraphQL schema wiring and reading `userId` from a request header (server.ts, schema.ts). The owner is a plain parameter.
- A missing `userId` header. It yields a SQL `NULL` owner, and `user_id = NULL` never matches a row. The model's owner is always a string.
- The `data` training set argument of createModel. The code never reads it.
- Model ids that are not non-negative integers. A non-numeric id or one outside the integer column's range makes the database query fail; a negative numeric id such as `-1` matches no row and gives NotFound. The model's ids are naturals, so none of these can be passed.
- Database failures, `console.error` logging, message strings and the `formatISO` creation-time string. Errors are the abstract kinds `InvalidArgument`, `QuotaExceeded`, `NotFound` and `NotReady`.
- Floating point. Alpha is a `real`, `x` in predict is an integer, and the sum `x + 1` is exact.
- Lifecycle.ModelStatus: the wait is in integer milliseconds, not the code's `/ 1000` floating-point seconds.
- `setTimeout` scheduling and the interleaving of requests. Every request and every completion is one atomic transition. The 60-second delay before a completion is not enforced: a run may apply `Complete` at any point. A create racing another create of the same owner is not modelled. Neither is the window between deleteModel's lookup query and its delete query.
- Lifecycle.CreateModel: the returned row's extra `createTime` field is not modelled.
- Lifecycle.GetAllModels: the result order is fixed by the model (ascending id); the source's query has no `ORDER BY`, so its order is whatever the database returns.
