/** Values shared by the model store and the lifecycle resolvers: model
    kinds, statuses, stored rows, the caller-supplied alpha argument and the
    error kinds the resolvers raise. */
module ModelTypes {

  /** Training time of a model, in milliseconds (resolver.ts, EXECUTION_TIME). */
  const ExecutionTime: nat := 60000

  /** Number of models one owner may hold. */
  const MaxModels: nat := 5

  datatype Option<+T> = None | Some(value: T)

  datatype Result<+R, +E> = Success(value: R) | Failure(error: E)

  /** The GraphQL errors of the resolvers, without their message text.
      A wrong owner is reported exactly like a missing id: NotFound. */
  datatype Error = InvalidArgument | QuotaExceeded | NotFound | NotReady

  datatype ModelType = Linear | Lasso | Ridge

  datatype Status = Pending | Completed

  /** The `alpha` argument of createModel as JavaScript sees it: left out of the
      request (`undefined`), passed as an explicit `null`, or a number. */
  datatype AlphaArg = Omitted | Null | Given(v: real)

  type Owner = string
  type ModelId = nat

  /** The columns of one row of the models table other than its id;
      `createdAt` is milliseconds since the epoch (a timestamp column read back
      as a `Date`), or None for a NULL column. */
  datatype Entry = Entry(
    owner: Owner,
    modelType: ModelType,
    alpha: Option<real>,
    status: Status,
    createdAt: Option<int>)

  /** A whole row, as `RETURNING *` and `SELECT *` hand it back. */
  datatype Model = Model(id: ModelId, entry: Entry)

  /** The models table: rows keyed by id, and the next value of the id
      sequence (a serial column never hands out an id twice). */
  datatype Store = Store(rows: map<ModelId, Entry>, nextId: ModelId)

  /** What modelStatus returns: the row plus the derived remaining wait, in ms. */
  datatype StatusView = StatusView(model: Model, waitTime: int)

  const EmptyStore: Store := Store(map[], 0)

  /** Completed is the later status: a transition never lowers the rank. */
  function Rank(st: Status): nat
  {
    match st
    case Pending => 0
    case Completed => 1
  }
}
