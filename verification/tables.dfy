/** A relational table as the handlers see it: rows keyed by an integer
    primary key, plus the next key the auto-increment sequence hands out.
    The sequence never goes back, as with PostgreSQL's SERIAL: a key freed by
    a delete is not handed out again. */
module Tables {

  datatype Table<T> = Table(rows: map<nat, T>, nextId: nat)

  /** The sequence is ahead of every stored key, so the next key is free. */
  ghost predicate Valid<T>(t: Table<T>) {
    forall k | k in t.rows :: k < t.nextId
  }

  /** INSERT: the new row receives the next key; every other row stays. */
  function Insert<T>(t: Table<T>, x: T): (r: Table<T>)
    requires Valid(t)
    ensures Valid(r)
    ensures t.nextId !in t.rows
    ensures r.rows.Keys == t.rows.Keys + {t.nextId}
    ensures r.rows[t.nextId] == x
    ensures forall k | k in t.rows :: r.rows[k] == t.rows[k]
    ensures |r.rows| == |t.rows| + 1
  {
    Table(t.rows[t.nextId := x], t.nextId + 1)
  }

  /** UPDATE of one existing row; keys and the sequence are untouched. */
  function Update<T>(t: Table<T>, k: nat, x: T): (r: Table<T>)
    requires Valid(t)
    requires k in t.rows
    ensures Valid(r)
    ensures r.rows.Keys == t.rows.Keys && r.nextId == t.nextId
    ensures r.rows[k] == x
    ensures forall j | j in t.rows && j != k :: r.rows[j] == t.rows[j]
  {
    Table(t.rows[k := x], t.nextId)
  }

  /** DELETE of one existing row; the sequence is not rewound. */
  function Delete<T>(t: Table<T>, k: nat): (r: Table<T>)
    requires Valid(t)
    requires k in t.rows
    ensures Valid(r)
    ensures r.rows.Keys == t.rows.Keys - {k} && r.nextId == t.nextId
    ensures forall j | j in r.rows :: r.rows[j] == t.rows[j]
    ensures |r.rows| == |t.rows| - 1
  {
    Table(t.rows - {k}, t.nextId)
  }

  /** Inserts the rows of `xs` one after another, in order, as a batch of
      INSERTs committed together does. */
  function InsertAll<T>(t: Table<T>, xs: seq<T>): (r: Table<T>)
    requires Valid(t)
    ensures Valid(r)
    ensures r.nextId == t.nextId + |xs|
    ensures |r.rows| == |t.rows| + |xs|
    ensures forall k | k in t.rows :: k in r.rows && r.rows[k] == t.rows[k]
    ensures forall k | t.nextId <= k < t.nextId + |xs| :: k in r.rows && r.rows[k] == xs[k - t.nextId]
    ensures forall k | k in r.rows :: k in t.rows || t.nextId <= k < t.nextId + |xs|
    decreases |xs|
  {
    if xs == [] then t
    else
      var n := |xs| - 1;
      var r0 := InsertAll(t, xs[..n]);
      Insert(r0, xs[n])
  }
}
