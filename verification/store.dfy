/** The models table and the queries the resolvers run against it, as pure
    functions over an immutable map from id to row. */
module ModelStore {
  import opened ModelTypes

  /** Every row's id was handed out by the id sequence already. */
  predicate Valid(s: Store)
  {
    forall k :: k in s.rows ==> k < s.nextId
  }

  /** `SELECT * FROM models WHERE id = $1 AND user_id = $2`: the row only when
      both the id and the owner match, so another owner's row looks absent. */
  function Lookup(s: Store, owner: Owner, id: ModelId): (r: Option<Entry>)
    ensures r.Some? <==> id in s.rows && s.rows[id].owner == owner
    ensures r.Some? ==> r.value == s.rows[id]
  {
    if id in s.rows && s.rows[id].owner == owner then Some(s.rows[id]) else None
  }

  /** The rows of `owner` whose id is below `n`, in ascending id order. */
  function ListBelow(rows: map<ModelId, Entry>, owner: Owner, n: nat): (r: seq<Model>)
    ensures forall i :: 0 <= i < |r| ==>
      r[i].id < n && r[i].id in rows && rows[r[i].id] == r[i].entry && r[i].entry.owner == owner
    ensures forall i, j :: 0 <= i < j < |r| ==> r[i].id < r[j].id
    ensures forall k :: 0 <= k < n && k in rows && rows[k].owner == owner ==> Model(k, rows[k]) in r
    ensures |r| <= n
  {
    if n == 0 then []
    else
      var prefix := ListBelow(rows, owner, n - 1);
      var k := n - 1;
      if k in rows && rows[k].owner == owner then prefix + [Model(k, rows[k])] else prefix
  }

  /** The ids `owner` holds below `n`. */
  ghost function OwnedBelow(rows: map<ModelId, Entry>, owner: Owner, n: nat): set<ModelId>
  {
    set k | k in rows && k < n && rows[k].owner == owner
  }

  /** The ids `owner` holds anywhere in the table. */
  ghost function OwnedIds(s: Store, owner: Owner): set<ModelId>
  {
    set k | k in s.rows && s.rows[k].owner == owner
  }

  /** `SELECT * FROM models WHERE user_id = $1` (the query of getAllModels
      and of the quota check); this model fixes the order to ascending id. */
  function ListByOwner(s: Store, owner: Owner): (r: seq<Model>)
    ensures forall m :: m in r ==> m.id in s.rows && s.rows[m.id] == m.entry && m.entry.owner == owner
    ensures Valid(s) ==> forall m :: m in r <==> m.id in s.rows && s.rows[m.id] == m.entry && m.entry.owner == owner
    ensures forall i, j :: 0 <= i < j < |r| ==> r[i].id < r[j].id
  {
    ListBelow(s.rows, owner, s.nextId)
  }

  /** The `rowCount` of the owner query: on a valid table, the number of
      distinct ids the owner holds. */
  function CountByOwner(s: Store, owner: Owner): (c: nat)
    ensures Valid(s) ==> c == |OwnedIds(s, owner)|
  {
    ListBelowCardinality(s.rows, owner, s.nextId);
    assert Valid(s) ==> OwnedIds(s, owner) == OwnedBelow(s.rows, owner, s.nextId);
    |ListByOwner(s, owner)|
  }

  /** The listing below `n` has one entry per id the owner holds below `n`. */
  lemma {:induction false} ListBelowCardinality(rows: map<ModelId, Entry>, owner: Owner, n: nat)
    ensures |ListBelow(rows, owner, n)| == |OwnedBelow(rows, owner, n)|
  {
    if n == 0 {
      assert OwnedBelow(rows, owner, n) == {};
    } else {
      ListBelowCardinality(rows, owner, n - 1);
      OwnedBelowStep(rows, owner, n);
    }
  }

  /** Raising the bound by one adds id `n - 1` exactly when the owner holds it. */
  lemma OwnedBelowStep(rows: map<ModelId, Entry>, owner: Owner, n: nat)
    requires n > 0
    ensures |OwnedBelow(rows, owner, n)|
         == |OwnedBelow(rows, owner, n - 1)| + (if n - 1 in rows && rows[n - 1].owner == owner then 1 else 0)
  {
    var k := n - 1;
    var prev := OwnedBelow(rows, owner, k);
    var cur := OwnedBelow(rows, owner, n);
    if k in rows && rows[k].owner == owner {
      assert cur == prev + {k};
    } else {
      assert cur == prev;
    }
  }

  /** `INSERT ... RETURNING *`: the row gets the next id of the sequence. */
  function Insert(s: Store, e: Entry): (r: (Store, Model))
    ensures r.1 == Model(s.nextId, e)
    ensures r.0.rows == s.rows[r.1.id := e]
    ensures Valid(s) ==> r.1.id !in s.rows && Valid(r.0)
  {
    (Store(s.rows[s.nextId := e], s.nextId + 1), Model(s.nextId, e))
  }

  /** `UPDATE models SET status = $2 WHERE id = $1`: no owner filter, and a
      missing id updates nothing. */
  function UpdateStatus(s: Store, id: ModelId, st: Status): (r: Store)
    ensures r.rows.Keys == s.rows.Keys && r.nextId == s.nextId
    ensures id in s.rows ==> r.rows[id] == s.rows[id].(status := st)
    ensures forall k :: k in s.rows && k != id ==> r.rows[k] == s.rows[k]
    ensures id !in s.rows ==> r == s
  {
    if id in s.rows then Store(s.rows[id := s.rows[id].(status := st)], s.nextId) else s
  }

  /** `DELETE FROM models WHERE id = $1`. */
  function Remove(s: Store, id: ModelId): (r: Store)
    ensures r.rows.Keys == s.rows.Keys - {id} && r.nextId == s.nextId
    ensures forall k :: k in r.rows ==> r.rows[k] == s.rows[k]
  {
    Store(s.rows - {id}, s.nextId)
  }

  /** Rows at or above `n` do not affect the listing below `n`. */
  lemma {:induction false} ListBelowIgnoresAbove(rows: map<ModelId, Entry>, rows': map<ModelId, Entry>, owner: Owner, n: nat)
    requires forall k :: 0 <= k < n ==> (k in rows <==> k in rows')
    requires forall k :: 0 <= k < n && k in rows ==> rows[k] == rows'[k]
    ensures ListBelow(rows, owner, n) == ListBelow(rows', owner, n)
  {
    if n > 0 {
      ListBelowIgnoresAbove(rows, rows', owner, n - 1);
    }
  }

  /** The listing only grows when the owner's set of ids below `n` grows. */
  lemma {:induction false} ListBelowLengthMono(rows: map<ModelId, Entry>, rows': map<ModelId, Entry>, owner: Owner, n: nat)
    requires forall k :: 0 <= k < n && k in rows && rows[k].owner == owner ==> k in rows' && rows'[k].owner == owner
    ensures |ListBelow(rows, owner, n)| <= |ListBelow(rows', owner, n)|
  {
    if n > 0 {
      ListBelowLengthMono(rows, rows', owner, n - 1);
    }
  }

  /** The listing of a valid store holds exactly the owner's rows. */
  lemma ListByOwnerExact(s: Store, owner: Owner, m: Model)
    requires Valid(s)
    ensures m in ListByOwner(s, owner) <==> m.id in s.rows && s.rows[m.id] == m.entry && m.entry.owner == owner
  {
  }

  /** Two listings agree in length when the owner holds the same ids in both. */
  lemma CountByOwnerSameOwners(s: Store, s': Store, owner: Owner)
    requires s.nextId == s'.nextId
    requires forall k :: k in s.rows && s.rows[k].owner == owner <==> k in s'.rows && s'.rows[k].owner == owner
    ensures CountByOwner(s, owner) == CountByOwner(s', owner)
  {
    ListBelowLengthMono(s.rows, s'.rows, owner, s.nextId);
    ListBelowLengthMono(s'.rows, s.rows, owner, s.nextId);
  }

  /** An insert appends the new row to its owner's listing and leaves every
      other owner's listing as it was. */
  lemma ListByOwnerAfterInsert(s: Store, e: Entry, owner: Owner)
    requires Valid(s)
    ensures ListByOwner(Insert(s, e).0, owner)
         == ListByOwner(s, owner) + (if e.owner == owner then [Model(s.nextId, e)] else [])
  {
    var s' := Insert(s, e).0;
    ListBelowIgnoresAbove(s.rows, s'.rows, owner, s.nextId);
  }

  /** When the owner holds every id below `n`, all `n` of them are listed. */
  lemma {:induction false} ListBelowAllOwned(rows: map<ModelId, Entry>, owner: Owner, n: nat)
    requires forall k :: 0 <= k < n ==> k in rows && rows[k].owner == owner
    ensures |ListBelow(rows, owner, n)| == n
  {
    if n > 0 {
      ListBelowAllOwned(rows, owner, n - 1);
    }
  }
}
