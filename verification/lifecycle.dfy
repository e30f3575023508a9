/** The resolvers of the lifecycle manager (resolver.ts) as pure functions:
    mutations return the new store with their output, reads return only their
    output and so cannot change the store. The deferred completion that
    createModel schedules is the separate transition `Complete`. */
module Lifecycle {
  import opened ModelTypes
  import opened ModelStore

  /** The validation of createModel: LASSO or RIDGE with an alpha that is
      supplied (not `undefined`) and `<= 0`. JavaScript compares an explicit
      `null` as 0, so a null alpha is rejected too. */
  predicate AlphaRejected(t: ModelType, alpha: AlphaArg)
    // LINEAR and an omitted alpha are never rejected
    ensures AlphaRejected(t, alpha) ==> t != Linear && !alpha.Omitted?
    // an explicit null is rejected for LASSO and RIDGE
    ensures t != Linear && alpha.Null? ==> AlphaRejected(t, alpha)
    // a number is rejected for LASSO and RIDGE exactly when it is not positive
    ensures t != Linear && alpha.Given? ==> (AlphaRejected(t, alpha) <==> alpha.v <= 0.0)
  {
    (t == Lasso || t == Ridge) &&
    match alpha
    case Omitted => false
    case Null => true
    case Given(v) => v <= 0.0
  }

  /** The alpha column written by createModel: NULL for LINEAR, otherwise the
      caller's value, NULL when none was given. */
  function StoredAlpha(t: ModelType, alpha: AlphaArg): (a: Option<real>)
    ensures a.Some? <==> t != Linear && alpha.Given?
    ensures a.Some? ==> a.value == alpha.v
  {
    if t == Linear then None
    else match alpha
      case Given(v) => Some(v)
      case _ => None
  }

  /** Mutation.createModel at time `now`: validate alpha, then enforce the
      quota with the source's `rowCount === 5` test, then insert a PENDING row. */
  function CreateModel(s: Store, owner: Owner, t: ModelType, alpha: AlphaArg, now: int): (r: Result<(Store, Model), Error>)
    // the alpha check comes first, whatever the store holds
    ensures AlphaRejected(t, alpha) ==> r == Failure(InvalidArgument)
    ensures !AlphaRejected(t, alpha) && CountByOwner(s, owner) == MaxModels ==> r == Failure(QuotaExceeded)
    ensures r.Failure? ==> r.error in {InvalidArgument, QuotaExceeded}
    // an accepted alpha under quota always succeeds (LINEAR included)
    ensures !AlphaRejected(t, alpha) && CountByOwner(s, owner) != MaxModels ==> r.Success?
    // InvalidArgument comes only from a rejected alpha
    ensures r == Failure(InvalidArgument) ==> AlphaRejected(t, alpha)
    ensures r.Success? ==>
      var (s', m) := r.value;
      && s'.rows == s.rows[m.id := m.entry]
      && (Valid(s) ==> m.id !in s.rows && |s'.rows| == |s.rows| + 1 && Valid(s'))
      && m.entry.owner == owner
      && m.entry.modelType == t
      && m.entry.status == Pending
      && m.entry.createdAt == Some(now)
      && (m.entry.alpha.Some? <==> t != Linear && alpha.Given?)
      && (m.entry.alpha.Some? ==> m.entry.alpha.value == alpha.v && alpha.v > 0.0)
  {
    if AlphaRejected(t, alpha) then Failure(InvalidArgument)
    else if CountByOwner(s, owner) == MaxModels then Failure(QuotaExceeded)
    else
      var e := Entry(owner, t, StoredAlpha(t, alpha), Pending, Some(now));
      Success(Insert(s, e))
  }

  /** The deferred completion scheduled by createModel: it flips the row with
      that id to COMPLETED for whoever owns it, and does nothing once the row
      has been deleted. */
  function Complete(s: Store, id: ModelId): (r: Store)
    ensures r.rows.Keys == s.rows.Keys && r.nextId == s.nextId
    ensures id in s.rows ==> r.rows[id] == s.rows[id].(status := Completed)
    ensures forall k :: k in s.rows && k != id ==> r.rows[k] == s.rows[k]
    ensures id !in s.rows ==> r == s
  {
    UpdateStatus(s, id, Completed)
  }

  /** Remaining training time after `elapsed` ms, never negative. */
  function Remaining(elapsed: int): (w: int)
    ensures w >= 0
    ensures w == 0 || w == ExecutionTime - elapsed
    ensures 0 <= elapsed ==> w <= ExecutionTime
    ensures elapsed >= ExecutionTime ==> w == 0
    ensures elapsed < ExecutionTime ==> w == ExecutionTime - elapsed
  {
    var remaining := ExecutionTime - elapsed;
    if remaining > 0 then remaining else 0
  }

  /** Query.modelStatus at time `now`. */
  function ModelStatus(s: Store, owner: Owner, id: ModelId, now: int): (r: Result<StatusView, Error>)
    ensures r.Failure? <==> !(id in s.rows && s.rows[id].owner == owner)
    ensures r.Failure? ==> r.error == NotFound
    ensures r.Success? ==> r.value.model == Model(id, s.rows[id])
    ensures r.Success? ==> 0 <= r.value.waitTime
    ensures r.Success? && s.rows[id].status == Completed ==> r.value.waitTime == 0
    ensures r.Success? && s.rows[id].createdAt.None? ==> r.value.waitTime == 0
    ensures r.Success? && s.rows[id].createdAt.Some? && s.rows[id].createdAt.value <= now ==>
      r.value.waitTime <= ExecutionTime
    ensures r.Success? && s.rows[id].status == Pending && s.rows[id].createdAt.Some? ==>
      r.value.waitTime + (now - s.rows[id].createdAt.value) >= ExecutionTime
    // while PENDING the wait is max(0, training time - elapsed time)
    ensures r.Success? && s.rows[id].status == Pending && s.rows[id].createdAt.Some? ==>
      r.value.waitTime ==
        (var rem := ExecutionTime - (now - s.rows[id].createdAt.value); if rem > 0 then rem else 0)
  {
    match Lookup(s, owner, id)
    case None => Failure(NotFound)
    case Some(e) =>
      if e.status == Pending && e.createdAt.Some? then
        Success(StatusView(Model(id, e), Remaining(now - e.createdAt.value)))
      else
        Success(StatusView(Model(id, e), 0))
  }

  /** Query.predict: the placeholder prediction `x + 1`, only from a
      COMPLETED model of the caller. */
  function Predict(s: Store, owner: Owner, id: ModelId, x: int): (r: Result<int, Error>)
    ensures r == Failure(NotFound) <==> !(id in s.rows && s.rows[id].owner == owner)
    ensures r == Failure(NotReady) <==> id in s.rows && s.rows[id].owner == owner && s.rows[id].status != Completed
    ensures r.Success? <==> id in s.rows && s.rows[id].owner == owner && s.rows[id].status == Completed
    ensures r.Success? ==> r.value == x + 1
  {
    match Lookup(s, owner, id)
    case None => Failure(NotFound)
    case Some(e) =>
      if e.status != Completed then Failure(NotReady) else Success(x + 1)
  }

  /** Query.getAllModels: every row of the caller, in the ascending id order
      this model fixes. */
  function GetAllModels(s: Store, owner: Owner): (r: seq<Model>)
    ensures forall m :: m in r ==> m.id in s.rows && s.rows[m.id] == m.entry && m.entry.owner == owner
    // a valid store lists every row of the owner
    ensures Valid(s) ==> forall k :: k in s.rows && s.rows[k].owner == owner ==> Model(k, s.rows[k]) in r
    ensures forall i, j :: 0 <= i < j < |r| ==> r[i].id < r[j].id
    ensures |r| == CountByOwner(s, owner)
    // one entry per model the owner holds
    ensures Valid(s) ==> |r| == |OwnedIds(s, owner)|
  {
    ListByOwner(s, owner)
  }

  /** Mutation.deleteModel: the caller's row is removed and returned as it
      was; a missing id and another owner's id both fail the same way. */
  function DeleteModel(s: Store, owner: Owner, id: ModelId): (r: Result<(Store, Model), Error>)
    ensures r.Failure? <==> !(id in s.rows && s.rows[id].owner == owner)
    ensures r.Failure? ==> r.error == NotFound
    ensures r.Success? ==>
      var (s', m) := r.value;
      && m == Model(id, s.rows[id])
      && s'.rows == s.rows - {id}
      && |s'.rows| == |s.rows| - 1
      && s'.nextId == s.nextId
  {
    match Lookup(s, owner, id)
    case None => Failure(NotFound)
    case Some(e) => Success((Remove(s, id), Model(id, e)))
  }
}
