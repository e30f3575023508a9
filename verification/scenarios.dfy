/** How the resolvers see each other's effects: what a read returns right
    after a create, a completion or a delete, and how a delete and a late
    completion of the same model combine. */
module Scenarios {
  import opened ModelTypes
  import opened ModelStore
  import opened Lifecycle
  import opened Machine

  /** Right after a create, its owner sees the new model PENDING with the
      full training time left, cannot predict with it yet, and finds it at
      the end of the listing; every other owner sees neither the model nor
      any change to their own listing. */
  lemma CreateThenRead(s: Store, owner: Owner, t: ModelType, alpha: AlphaArg, now: int, other: Owner, x: int)
    requires Valid(s)
    requires CreateModel(s, owner, t, alpha, now).Success?
    requires other != owner
    ensures var (s', m) := CreateModel(s, owner, t, alpha, now).value;
      && ModelStatus(s', owner, m.id, now) == Success(StatusView(m, ExecutionTime))
      && Predict(s', owner, m.id, x) == Failure(NotReady)
      && GetAllModels(s', owner) == GetAllModels(s, owner) + [m]
      && ModelStatus(s', other, m.id, now) == Failure(NotFound)
      && GetAllModels(s', other) == GetAllModels(s, other)
  {
    var e := Entry(owner, t, StoredAlpha(t, alpha), Pending, Some(now));
    ListByOwnerAfterInsert(s, e, owner);
    ListByOwnerAfterInsert(s, e, other);
  }

  /** Once the completion has fired, the owner sees COMPLETED with nothing
      left to wait, and predict answers `x + 1`. */
  lemma CompleteThenRead(s: Store, owner: Owner, id: ModelId, now: int, x: int)
    requires id in s.rows && s.rows[id].owner == owner
    ensures ModelStatus(Complete(s, id), owner, id, now)
         == Success(StatusView(Model(id, s.rows[id].(status := Completed)), 0))
    ensures Predict(Complete(s, id), owner, id, x) == Success(x + 1)
  {
  }

  /** A PENDING model whose training time has run out still reports PENDING,
      with a wait of 0: a status read never completes a model itself. */
  lemma OverdueStaysPending(s: Store, owner: Owner, id: ModelId, now: int, x: int)
    requires id in s.rows && s.rows[id].owner == owner && s.rows[id].status == Pending
    requires s.rows[id].createdAt.Some? && now - s.rows[id].createdAt.value >= ExecutionTime
    ensures ModelStatus(s, owner, id, now) == Success(StatusView(Model(id, s.rows[id]), 0))
    ensures Predict(s, owner, id, x) == Failure(NotReady)
  {
  }

  /** Firing the completion again changes nothing. */
  lemma CompleteIdempotent(s: Store, id: ModelId)
    ensures Complete(Complete(s, id), id) == Complete(s, id)
  {
  }

  /** After a delete the id is gone for everyone, its owner included: status,
      predict and a second delete all fail with NotFound, and the owner's
      listing is the old one without the deleted model. */
  lemma DeleteThenRead(s: Store, owner: Owner, id: ModelId, o: Owner, now: int, x: int)
    requires Valid(s)
    requires DeleteModel(s, owner, id).Success?
    ensures var s' := DeleteModel(s, owner, id).value.0;
      && ModelStatus(s', o, id, now) == Failure(NotFound)
      && Predict(s', o, id, x) == Failure(NotFound)
      && DeleteModel(s', o, id) == Failure(NotFound)
      && (forall m :: m in GetAllModels(s', o) <==> m in GetAllModels(s, o) && m.id != id)
  {
    var s' := DeleteModel(s, owner, id).value.0;
    assert Valid(s');
    forall m
      ensures m in GetAllModels(s', o) <==> m in GetAllModels(s, o) && m.id != id
    {
      ListByOwnerExact(s, o, m);
      ListByOwnerExact(s', o, m);
    }
  }

  /** A delete wins the race with the model's completion whichever runs
      first: a completion after the delete is a silent no-op, and a delete
      after the completion leaves the same table. */
  lemma DeleteWinsRace(s: Store, owner: Owner, id: ModelId)
    requires DeleteModel(s, owner, id).Success?
    ensures var s' := DeleteModel(s, owner, id).value.0;
      && Complete(s', id) == s'
      && DeleteModel(Complete(s, id), owner, id).Success?
      && DeleteModel(Complete(s, id), owner, id).value.0 == s'
  {
    var s' := DeleteModel(s, owner, id).value.0;
    var s2 := DeleteModel(Complete(s, id), owner, id).value.0;
    assert s2.rows == s'.rows;
  }

  /** Another owner's model is indistinguishable from a missing one: every
      request on it fails with NotFound and the table stays as it was. */
  lemma ForeignModelHidden(s: Store, id: ModelId, o: Owner, now: int, x: int)
    requires id in s.rows && s.rows[id].owner != o
    ensures ModelStatus(s, o, id, now) == ModelStatus(Remove(s, id), o, id, now) == Failure(NotFound)
    ensures Predict(s, o, id, x) == Predict(Remove(s, id), o, id, x) == Failure(NotFound)
    ensures DeleteModel(s, o, id) == DeleteModel(Remove(s, id), o, id) == Failure(NotFound)
    ensures Step(s, Delete(o, id)) == s
  {
  }

  /** A rejected alpha leaves the table as it was, whatever it holds. */
  lemma RejectedAlphaLeavesStore(s: Store, owner: Owner, t: ModelType, alpha: AlphaArg, now: int)
    requires AlphaRejected(t, alpha)
    ensures Step(s, Create(owner, t, alpha, now)) == s
    ensures t != Linear
  {
  }

  /** An explicit null alpha: LASSO and RIDGE refuse it as non-positive,
      while LINEAR ignores it (like any alpha) and stores none. */
  lemma NullAlphaOutcome(s: Store, owner: Owner, t: ModelType, now: int)
    ensures t != Linear ==> CreateModel(s, owner, t, Null, now) == Failure(InvalidArgument)
    ensures t == Linear ==> CreateModel(s, owner, t, Null, now) != Failure(InvalidArgument)
    ensures t == Linear && CreateModel(s, owner, t, Null, now).Success? ==>
      CreateModel(s, owner, t, Null, now).value.1.entry.alpha == None
  {
  }
}
