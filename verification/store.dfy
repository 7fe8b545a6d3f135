/**
  The database table of one model class, as an abstract store.

  The table has an integer primary key filled from a sequence (`SERIAL`)
  and one JSONB column holding the record's attribute map. The JSON
  encoding is taken as lossless, so a row holds the `Hash` itself. A unique
  index declared with `unique` is an expression index over `data ->> name`
  restricted to rows where the key is present; the table records the names
  that have one.
 */
module Store {
  import opened Errors
  import opened Values
  import opened OrderedHash

  datatype Table = Table(rows: map<nat, Hash>, nextId: nat, uniqueKeys: set<Key>)

  /** A freshly created table: no rows, the sequence at 1. */
  function EmptyTable(uniqueKeys: set<Key>): Table {
    Table(map[], 1, uniqueKeys)
  }

  /** Two documents collide on the unique index over `k`: both give the same
      non-NULL text for it. A JSON null or an absent key gives NULL, and NULLs
      never collide. */
  predicate CollideOn(a: Hash, b: Hash, k: Key) {
    Text(Get(a, k)).Some? && Text(Get(a, k)) == Text(Get(b, k))
  }

  predicate Collide(keys: set<Key>, a: Hash, b: Hash) {
    exists k :: k in keys && CollideOn(a, b, k)
  }

  /** Some row other than `except` collides with `data`. */
  predicate CollidesWithRow(t: Table, data: Hash, except: Option<nat>) {
    exists id :: id in t.rows && Some(id) != except && Collide(t.uniqueKeys, t.rows[id], data)
  }

  /** Every row id was handed out by the sequence, and the unique indexes
      hold. */
  predicate Valid(t: Table) {
    && t.nextId >= 1
    && (forall id :: id in t.rows ==> 1 <= id < t.nextId)
    && (forall a, b :: a in t.rows && b in t.rows && a != b ==> !Collide(t.uniqueKeys, t.rows[a], t.rows[b]))
  }

  lemma CollideSymmetric(keys: set<Key>, a: Hash, b: Hash)
    ensures Collide(keys, a, b) <==> Collide(keys, b, a)
  {
    if Collide(keys, a, b) {
      var k :| k in keys && CollideOn(a, b, k);
      assert CollideOn(b, a, k);
    }
    if Collide(keys, b, a) {
      var k :| k in keys && CollideOn(b, a, k);
      assert CollideOn(a, b, k);
    }
  }

  /** `INSERT INTO t (data) VALUES ($1) RETURNING id`. The default takes the
      sequence's next value before the unique indexes are checked, so a
      rejected insert still uses up an id. The sequence a `SERIAL` column
      owns is an `int4` sequence: once its next value would pass the largest
      `int4`, `nextval` fails and nothing is used up. */
  function Insert(t: Table, data: Hash): (r: (Table, Result<nat>))
    requires Valid(t)
    ensures Valid(r.0) && r.0.uniqueKeys == t.uniqueKeys
    ensures !InInt4(t.nextId) ==> r == (t, Err(StoreError(SequenceExhausted)))
    ensures InInt4(t.nextId) ==> r.0.nextId == t.nextId + 1
    ensures r.1.Ok? <==> InInt4(t.nextId) && !CollidesWithRow(t, data, None)
    ensures r.1.Ok? ==> r.1.value == t.nextId && t.nextId !in t.rows && r.0.rows == t.rows[t.nextId := data]
    ensures r.1.Err? ==> r.0.rows == t.rows
    ensures InInt4(t.nextId) && r.1.Err? ==> r.1.error == StoreError(UniqueViolation)
  {
    var id := t.nextId;
    if !InInt4(id) then
      (t, Err(StoreError(SequenceExhausted)))
    else if CollidesWithRow(t, data, None) then
      (t.(nextId := id + 1), Err(StoreError(UniqueViolation)))
    else
      var t' := Table(t.rows[id := data], id + 1, t.uniqueKeys);
      assert forall a :: a in t.rows ==> !Collide(t.uniqueKeys, t.rows[a], data);
      forall a | a in t.rows
        ensures !Collide(t.uniqueKeys, data, t.rows[a])
      {
        CollideSymmetric(t.uniqueKeys, data, t.rows[a]);
      }
      (t', Ok(id))
  }

  /** `UPDATE t SET data = $1 WHERE id = $2`: no row with that id leaves the
      table as it was; a collision with another row is the database's
      unique-violation error. */
  function UpdateRow(t: Table, id: int, data: Hash): (r: Result<Table>)
    requires Valid(t)
    ensures r.Ok? ==> Valid(r.value)
    ensures r.Ok? ==> r.value.nextId == t.nextId && r.value.uniqueKeys == t.uniqueKeys
    ensures !InInt4(id) ==> r == Err(StoreError(InvalidInteger))
    ensures InInt4(id) && (id < 0 || id !in t.rows) ==> r == Ok(t)
    ensures InInt4(id) && id >= 0 && id in t.rows ==>
      if CollidesWithRow(t, data, Some(id)) then r == Err(StoreError(UniqueViolation))
      else r.Ok? && r.value.rows == t.rows[id := data]
  {
    if !InInt4(id) then Err(StoreError(InvalidInteger))
    else if id < 0 || id !in t.rows then Ok(t)
    else if CollidesWithRow(t, data, Some(id)) then Err(StoreError(UniqueViolation))
    else
      forall a | a in t.rows && a != id
        ensures !Collide(t.uniqueKeys, data, t.rows[a])
      {
        CollideSymmetric(t.uniqueKeys, data, t.rows[a]);
      }
      Ok(t.(rows := t.rows[id := data]))
  }

  /** How Postgres reads a parameter compared with the integer `id` column:
      NULL for nil, else the parameter's text parsed as an `int4`. */
  function IdParam(v: Value): (r: Result<Option<int>>)
    ensures v.Nil? ==> r == Ok(None)
    ensures v.Int? ==> r == if InInt4(v.i) then Ok(Some(v.i)) else Err(StoreError(InvalidInteger))
    ensures v.Bool? ==> r == Err(StoreError(InvalidInteger))
    ensures r.Ok? && r.value.Some? ==> InInt4(r.value.value)
  {
    if v.Int? && InInt4(v.i) then
      Ok(Some(v.i))
    else
      assert v.Int? ==> PgInt4(Decimal(v.i)) == None by {
        if v.Int? {
          DecimalToPgInt4(v.i);
        }
      }
      match Text(v)
      case None => Ok(None)
      case Some(text) =>
        match PgInt4(text)
        case None => Err(StoreError(InvalidInteger))
        case Some(n) => Ok(Some(n))
  }

  /** The row a parameter selects with `WHERE id = $1`, if any. */
  function RowFor(t: Table, v: Value): (r: Result<Option<nat>>)
    ensures r.Ok? ==> (r.value.Some? ==> r.value.value in t.rows)
    ensures r.Err? <==> IdParam(v).Err?
    ensures r.Ok? && r.value.None? ==> forall n :: IdParam(v) == Ok(Some(n)) ==> n !in t.rows
  {
    match IdParam(v)
    case Err(e) => Err(e)
    case Ok(None) => Ok(None)
    case Ok(Some(n)) => if n >= 0 && n in t.rows then Ok(Some(n)) else Ok(None)
  }

  /** `SELECT * FROM t WHERE id = $1`: the stored document, if the row
      exists. */
  function Lookup(t: Table, v: Value): (r: Result<Option<Hash>>)
    ensures r.Err? <==> IdParam(v).Err?
    ensures v.Int? && InInt4(v.i) ==> r == Ok(if v.i >= 0 && v.i in t.rows then Some(t.rows[v.i]) else None)
  {
    match RowFor(t, v)
    case Err(e) => Err(e)
    case Ok(None) => Ok(None)
    case Ok(Some(n)) => Ok(Some(t.rows[n]))
  }

  /** `DELETE FROM t WHERE id = $1 RETURNING id`: the table without the row,
      and the id of the row deleted, if there was one. */
  function DeleteRow(t: Table, v: Value): (r: Result<(Table, Option<nat>)>)
    requires Valid(t)
    ensures r.Err? <==> IdParam(v).Err?
    ensures r.Ok? ==> Valid(r.value.0) && r.value.0.nextId == t.nextId && r.value.0.uniqueKeys == t.uniqueKeys
    ensures r.Ok? && r.value.1.Some? ==> r.value.1.value in t.rows && r.value.0.rows == t.rows - {r.value.1.value}
    ensures r.Ok? && r.value.1.None? ==> r.value.0 == t
    ensures v.Int? && InInt4(v.i) && v.i >= 0 && v.i in t.rows ==> r == Ok((t.(rows := t.rows - {v.i}), Some(v.i)))
  {
    match RowFor(t, v)
    case Err(e) => Err(e)
    case Ok(None) => Ok((t, None))
    case Ok(Some(n)) => Ok((t.(rows := t.rows - {n}), Some(n)))
  }
}
