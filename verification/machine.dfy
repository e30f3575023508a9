/** The lifecycle manager as a state machine over the models table: the two
    mutations and the deferred completion are its transitions, and the
    invariants below hold in every store reachable from the empty one. */
module Machine {
  import opened ModelTypes
  import opened ModelStore
  import opened Lifecycle

  /** The transitions that can change the table. Reads are left out: they
      return no store. `Finish(id)` is the completion timer of model `id`
      firing, at any point after its creation, deletion included. */
  datatype Op =
    | Create(owner: Owner, modelType: ModelType, alpha: AlphaArg, now: int)
    | Finish(id: ModelId)
    | Delete(owner: Owner, id: ModelId)

  /** The store after one transition; a failing request leaves it as it was. */
  function Step(s: Store, op: Op): Store
  {
    match op
    case Create(owner, t, alpha, now) =>
      (match CreateModel(s, owner, t, alpha, now)
       case Success((s', _)) => s'
       case Failure(_) => s)
    case Finish(id) => Complete(s, id)
    case Delete(owner, id) =>
      (match DeleteModel(s, owner, id)
       case Success((s', _)) => s'
       case Failure(_) => s)
  }

  /** The store after a whole run of transitions, first to last. */
  function Run(s: Store, ops: seq<Op>): Store
    decreases |ops|
  {
    if |ops| == 0 then s else Run(Step(s, ops[0]), ops[1..])
  }

  /** No owner holds more than the quota. */
  ghost predicate QuotaRespected(s: Store)
  {
    forall o :: CountByOwner(s, o) <= MaxModels
  }

  /** A stored alpha belongs to a LASSO or RIDGE model and is positive. */
  predicate AlphaWellFormed(s: Store)
  {
    forall k :: k in s.rows && s.rows[k].alpha.Some? ==>
      s.rows[k].modelType != Linear && s.rows[k].alpha.value > 0.0
  }

  ghost predicate Inv(s: Store)
  {
    Valid(s) && QuotaRespected(s) && AlphaWellFormed(s)
  }

  lemma EmptyStoreInv()
    ensures Inv(EmptyStore)
  {
  }

  /** A successful create raises only its own owner's count, by one. */
  lemma CreateCounts(s: Store, owner: Owner, t: ModelType, alpha: AlphaArg, now: int, o: Owner)
    requires Valid(s)
    requires CreateModel(s, owner, t, alpha, now).Success?
    ensures CountByOwner(CreateModel(s, owner, t, alpha, now).value.0, o)
         == CountByOwner(s, o) + (if o == owner then 1 else 0)
  {
    var e := Entry(owner, t, StoredAlpha(t, alpha), Pending, Some(now));
    ListByOwnerAfterInsert(s, e, o);
  }

  /** Every transition keeps the invariant; in particular a create never takes
      an owner past the quota, even though the source tests `rowCount === 5`. */
  lemma StepPreservesInv(s: Store, op: Op)
    requires Inv(s)
    ensures Inv(Step(s, op))
  {
    var s' := Step(s, op);
    match op
    case Create(owner, t, alpha, now) =>
      var r := CreateModel(s, owner, t, alpha, now);
      if r.Success? {
        forall o
          ensures CountByOwner(s', o) <= MaxModels
        {
          CreateCounts(s, owner, t, alpha, now, o);
        }
      }
    case Finish(id) =>
      forall o
        ensures CountByOwner(s', o) <= MaxModels
      {
        CountByOwnerSameOwners(s, s', o);
      }
    case Delete(owner, id) =>
      if DeleteModel(s, owner, id).Success? {
        forall o
          ensures CountByOwner(s', o) <= MaxModels
        {
          ListBelowLengthMono(s'.rows, s.rows, o, s.nextId);
          assert CountByOwner(s, o) <= MaxModels;
        }
      }
  }

  lemma {:induction false} RunPreservesInv(s: Store, ops: seq<Op>)
    requires Inv(s)
    ensures Inv(Run(s, ops))
    decreases |ops|
  {
    if |ops| > 0 {
      StepPreservesInv(s, ops[0]);
      RunPreservesInv(Step(s, ops[0]), ops[1..]);
    }
  }

  /** From an empty table, every run leaves every owner with at most five models. */
  lemma QuotaFromEmpty(ops: seq<Op>, o: Owner)
    ensures CountByOwner(Run(EmptyStore, ops), o) <= MaxModels
  {
    EmptyStoreInv();
    RunPreservesInv(EmptyStore, ops);
  }

  /** In every reachable store the source's `rowCount === 5` test rejects
      exactly the creates that would exceed the quota: createModel fails iff
      the alpha is rejected or the owner already holds five or more models. */
  lemma CreateFailsExactlyWhen(s: Store, owner: Owner, t: ModelType, alpha: AlphaArg, now: int)
    requires Inv(s)
    ensures CreateModel(s, owner, t, alpha, now).Failure?
        <==> AlphaRejected(t, alpha) || CountByOwner(s, owner) >= MaxModels
  {
    assert CountByOwner(s, owner) <= MaxModels;
  }

  /** The `=== 5` test relies on the invariant: an owner already past the
      quota (a table the lifecycle manager itself never produces) is let
      through and gets a seventh model. */
  lemma QuotaTestNeedsInvariant()
    ensures exists s: Store, owner: Owner ::
      CountByOwner(s, owner) == MaxModels + 1 &&
      CreateModel(s, owner, Linear, Omitted, 0).Success?
  {
    var e := Entry("u", Linear, None, Pending, Some(0));
    var s := Store(map[0 := e, 1 := e, 2 := e, 3 := e, 4 := e, 5 := e], 6);
    ListBelowAllOwned(s.rows, "u", 6);
    assert CountByOwner(s, "u") == 6;
    assert !AlphaRejected(Linear, Omitted);
    assert CreateModel(s, "u", Linear, Omitted, 0).Success?;
  }

  /** A row that survives a transition keeps its owner, type, alpha and
      creation time, and its status never moves back to PENDING. */
  predicate Evolves(e: Entry, e': Entry)
  {
    && e'.owner == e.owner
    && e'.modelType == e.modelType
    && e'.alpha == e.alpha
    && e'.createdAt == e.createdAt
    && Rank(e.status) <= Rank(e'.status)
  }

  lemma StepMonotone(s: Store, op: Op, k: ModelId)
    requires Valid(s)
    requires k in s.rows && k in Step(s, op).rows
    ensures Evolves(s.rows[k], Step(s, op).rows[k])
  {
  }

  /** Across a whole run, a row that is there at both ends has only moved
      forward: its immutable columns are unchanged and it never returns to
      PENDING once COMPLETED. */
  lemma {:induction false} RunMonotone(s: Store, ops: seq<Op>, k: ModelId)
    requires Valid(s)
    requires k in s.rows && k in Run(s, ops).rows
    ensures Evolves(s.rows[k], Run(s, ops).rows[k])
    decreases |ops|
  {
    if |ops| > 0 {
      var s1 := Step(s, ops[0]);
      assert Valid(s1) by {
        if ops[0].Create? {
          var op := ops[0];
          var r := CreateModel(s, op.owner, op.modelType, op.alpha, op.now);
        }
      }
      if k !in s1.rows {
        NoResurrection(s1, ops[1..], k);
      }
      assert k in s1.rows;
      StepMonotone(s, ops[0], k);
      RunMonotone(s1, ops[1..], k);
    }
  }

  /** An id the sequence has handed out that is no longer in the table never
      comes back: no later create reuses it, and a completion firing after
      the delete does not recreate the row. */
  lemma {:induction false} NoResurrection(s: Store, ops: seq<Op>, k: ModelId)
    requires Valid(s)
    requires k < s.nextId && k !in s.rows
    ensures k !in Run(s, ops).rows
    decreases |ops|
  {
    if |ops| > 0 {
      var s1 := Step(s, ops[0]);
      assert Valid(s1) && k < s1.nextId && k !in s1.rows;
      NoResurrection(s1, ops[1..], k);
    }
  }
}
