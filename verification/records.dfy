/**
  `Shoden::Model` instances and their life cycle over a table: building a
  record, its id, the setters run by `update`, `save` (INSERT for a record
  without an id, UPDATE otherwise), `load!`, `Model[]`, `destroy` and
  `filter`.

  A record is the instance variable `@_id`, which is undefined until the
  record was built with a truthy `id` or first inserted, and the attribute
  map `@attributes`. Operations that fail return the Ruby exception they
  raise; operations that touch the table return the table after them, which
  for an INSERT that the unique index rejects is not the table before it
  (the id sequence has moved on).
 */
module Records {
  import opened Errors
  import opened Values
  import opened OrderedHash
  import opened Schema
  import opened Store
  import Query

  datatype Record = Record(ident: Option<Value>, attributes: Hash)

  /** The map `initialize` hands to `update`: a truthy `id` is taken out. */
  function Payload(attrs: Hash): (p: Hash)
    ensures Truthy(Get(attrs, "id")) ==> p.vals == attrs.vals - {"id"}
    ensures !Truthy(Get(attrs, "id")) ==> p == attrs
  {
    if Truthy(Get(attrs, "id")) then Delete(attrs, "id") else attrs
  }

  /** `Model.new(attrs)`: a truthy `id` becomes `@_id` and leaves the map;
      every other pair goes through its setter, which fails for a name
      without one. */
  function New(s: Schema, attrs: Hash): (r: Result<Record>)
    ensures r.Ok? <==> Payload(attrs).vals.Keys <= s.writers
    ensures r.Err? ==> exists k :: k in Payload(attrs).vals && k !in s.writers && r.error == NoMethodError(k + "=")
    ensures r.Err? ==> exists i :: FirstWithoutSetter(s, Payload(attrs).keys, i) && r.error == NoMethodError(Payload(attrs).keys[i] + "=")
    ensures r.Ok? ==> r.value.attributes.vals == Payload(attrs).vals
    ensures r.Ok? ==> (r.value.ident.Some? <==> Truthy(Get(attrs, "id")))
    ensures r.Ok? && r.value.ident.Some? ==> r.value.ident.value == Get(attrs, "id") && "id" !in r.value.attributes.vals
  {
    var ident := if Truthy(Get(attrs, "id")) then Some(Get(attrs, "id")) else None;
    var payload := Payload(attrs);
    var a := Assign(s, Empty, payload);
    EmptyOverridden(payload.vals);
    match a.missing
    case Some(k) => Err(NoMethodError(k + "="))
    case None => Ok(Record(ident, a.attributes))
  }

  /** `Model#id`: nil while `@_id` is undefined, otherwise `@_id.to_i`. */
  function Id(rec: Record): (r: Result<Option<int>>)
    ensures rec.ident.None? <==> r == Ok(None)
    ensures r.Err? <==> rec.ident.Some? && rec.ident.value.Bool?
  {
    match rec.ident
    case None => Ok(None)
    case Some(v) =>
      match ToI(v)
      case Ok(n) => Ok(Some(n))
      case Err(e) => Err(e)
  }

  /** The statement parameter `id` becomes: NULL for nil, else the integer. */
  function IdValue(id: Option<int>): Value {
    match id
    case None => Nil
    case Some(n) => Int(n)
  }

  /** The id a record adopts from `INSERT ... RETURNING id` is the decimal
      text of the row id, and `Model#id` reads it back as that integer. */
  lemma AdoptedIdReadsBack(n: nat, attributes: Hash)
    ensures Id(Record(Some(Str(Decimal(n))), attributes)) == Ok(Some(n))
  {
    var v := Str(Decimal(n));
    DecimalTextToI(n);
    assert ToI(v) == Ok(n);
  }

  /** `Model#update`: the setters of the given pairs, in order. */
  function Update(s: Schema, rec: Record, attrs: Hash): (r: Result<Record>)
    ensures r.Ok? <==> attrs.vals.Keys <= s.writers
    ensures r.Err? ==> exists i :: FirstWithoutSetter(s, attrs.keys, i) && r.error == NoMethodError(attrs.keys[i] + "=")
    ensures r.Ok? ==> r.value.ident == rec.ident && r.value.attributes.vals == rec.attributes.vals + attrs.vals
  {
    var a := Assign(s, rec.attributes, attrs);
    match a.Failure()
    case Some(e) => Err(e)
    case None => Ok(rec.(attributes := a.attributes))
  }

  /** `Model.save(record)`, with the record `Model#save` returns. Without an
      id the attributes are inserted and the record adopts the new row's id
      as the text the driver returns; a unique collision is re-raised as
      `UniqueIndexViolation`. With an id the row of that id gets the
      attributes; the rescue covers only the INSERT, so a collision here is
      the store's own error. */
  function Save(t: Table, rec: Record): (r: (Table, Result<Record>))
    requires Valid(t)
    ensures Valid(r.0) && r.0.uniqueKeys == t.uniqueKeys
    ensures rec.ident.None? ==> r.0.nextId == if InInt4(t.nextId) then t.nextId + 1 else t.nextId
    ensures rec.ident.None? ==> (r.1.Ok? <==> InInt4(t.nextId) && !CollidesWithRow(t, rec.attributes, None))
    ensures rec.ident.None? && r.1.Ok? ==>
      && t.nextId !in t.rows
      && r.0.rows == t.rows[t.nextId := rec.attributes]
      && r.1.value == Record(Some(Str(Decimal(t.nextId))), rec.attributes)
      && Id(r.1.value) == Ok(Some(t.nextId))
    ensures rec.ident.None? && r.1.Err? ==>
      && r.0.rows == t.rows
      && r.1.error == if InInt4(t.nextId) then UniqueIndexViolation else StoreError(SequenceExhausted)
    ensures rec.ident.Some? ==> r.0.nextId == t.nextId
    ensures rec.ident.Some? && r.1.Ok? ==> r.1.value == rec
    ensures rec.ident.Some? && r.1.Ok? ==> (Id(rec).Ok? && Id(rec).value.Some?
      && var n := Id(rec).value.value;
         r.0.rows == if 0 <= n && n in t.rows then t.rows[n := rec.attributes] else t.rows)
    ensures rec.ident.Some? ==> (r.1.Ok? <==> (Id(rec).Ok? && Id(rec).value.Some? && InInt4(Id(rec).value.value)
      && !(0 <= Id(rec).value.value && Id(rec).value.value in t.rows && CollidesWithRow(t, rec.attributes, Some(Id(rec).value.value)))))
    ensures rec.ident.Some? && r.1.Err? ==> r.0 == t && r.1.error != UniqueIndexViolation
  {
    match rec.ident
    case None =>
      var inserted := Insert(t, rec.attributes);
      (match inserted.1
       case Ok(n) =>
         AdoptedIdReadsBack(n, rec.attributes);
         (inserted.0, Ok(Record(Some(Str(Decimal(n))), rec.attributes)))
       case Err(e) => (inserted.0, Err(if e == StoreError(UniqueViolation) then UniqueIndexViolation else e)))
    case Some(_) =>
      match Id(rec)
      case Err(e) => (t, Err(e))
      case Ok(id) =>
        match UpdateRow(t, id.value, rec.attributes)
        case Err(e) => (t, Err(e))
        case Ok(t') => (t', Ok(rec))
  }

  /** A save of a record with an id that names an existing row replaces that
      row's document, keeps the record and its id, and adds no row. */
  lemma SaveUpdatesSameRow(t: Table, rec: Record, n: nat)
    requires Valid(t) && Id(rec) == Ok(Some(n)) && InInt4(n) && n in t.rows
    requires !CollidesWithRow(t, rec.attributes, Some(n))
    ensures Save(t, rec).1 == Ok(rec)
    ensures Save(t, rec).0.rows == t.rows[n := rec.attributes]
    ensures Id(Save(t, rec).1.value) == Ok(Some(n))
  {
  }

  /** Saving a record a second time updates the row the first save created:
      the id does not change and no other row appears. */
  lemma SaveTwiceKeepsId(t: Table, rec: Record)
    requires Valid(t) && rec.ident.None?
    requires Save(t, rec).1.Ok?
    ensures var first := Save(t, rec);
      var second := Save(first.0, first.1.value);
      && second.1 == Ok(first.1.value)
      && Id(second.1.value) == Ok(Some(t.nextId))
      && second.0.rows == first.0.rows
      && second.0.nextId == t.nextId + 1
  {
    var first := Save(t, rec);
    var t1 := first.0;
    var n := t.nextId;
    assert InInt4(n) && !CollidesWithRow(t, rec.attributes, None);
    assert t1.rows == t.rows[n := rec.attributes] && Valid(t1);
    assert Id(first.1.value) == Ok(Some(n));
    NoCollisionAfterInsert(t, t1, rec.attributes, n);
    SaveUpdatesSameRow(t1, first.1.value, n);
    UpdateWithSame(t1.rows, n);
  }

  lemma UpdateWithSame<K, V>(m: map<K, V>, k: K)
    requires k in m
    ensures m[k := m[k]] == m
  {
  }

  /** The row just inserted is the only one its document may collide with. */
  lemma NoCollisionAfterInsert(t: Table, t1: Table, data: Hash, n: nat)
    requires t1.uniqueKeys == t.uniqueKeys && t1.rows == t.rows[n := data]
    requires !CollidesWithRow(t, data, None)
    ensures !CollidesWithRow(t1, data, Some(n))
  {
    forall id | id in t1.rows && id != n
      ensures !Collide(t1.uniqueKeys, t1.rows[id], data)
    {
      assert id in t.rows && t1.rows[id] == t.rows[id];
    }
  }

  /** `Model#update_attributes`: `update`, then `save`. */
  function UpdateAttributes(s: Schema, t: Table, rec: Record, attrs: Hash): (r: (Table, Result<Record>))
    requires Valid(t)
    ensures Valid(r.0)
    ensures !(attrs.vals.Keys <= s.writers) ==> r.0 == t && r.1.Err? && r.1.error.NoMethodError?
    ensures r.1.Ok? ==> r.1.value.attributes.vals == rec.attributes.vals + attrs.vals
    ensures r.1.Ok? && rec.ident.Some? ==> r.1.value.ident == rec.ident
    ensures r.1.Ok? && rec.ident.None? ==>
      Id(r.1.value) == Ok(Some(t.nextId)) && r.0.rows == t.rows[t.nextId := r.1.value.attributes]
  {
    match Update(s, rec, attrs)
    case Err(e) => (t, Err(e))
    case Ok(updated) => Save(t, updated)
  }

  /** `Model.create(attrs)`: `new(attrs).save`. */
  function Create(s: Schema, t: Table, attrs: Hash): (r: (Table, Result<Record>))
    requires Valid(t)
    ensures Valid(r.0) && r.0.uniqueKeys == t.uniqueKeys
    ensures !(Payload(attrs).vals.Keys <= s.writers) ==> r.0 == t && r.1.Err? && r.1.error.NoMethodError?
    ensures r.1.Ok? ==> r.1.value.attributes.vals == Payload(attrs).vals
    ensures Payload(attrs).vals.Keys <= s.writers && !Truthy(Get(attrs, "id")) ==>
      && (r.1.Ok? <==> InInt4(t.nextId) && !CollidesWithRow(t, New(s, attrs).value.attributes, None))
      && r.0.nextId == if InInt4(t.nextId) then t.nextId + 1 else t.nextId
    ensures r.1.Ok? && !Truthy(Get(attrs, "id")) ==>
      && r.0.rows == t.rows[t.nextId := r.1.value.attributes]
      && Id(r.1.value) == Ok(Some(t.nextId))
    ensures Payload(attrs).vals.Keys <= s.writers && Truthy(Get(attrs, "id")) ==>
      && r.0.nextId == t.nextId
      && (r.1.Ok? ==> r.1.value.ident == Some(Get(attrs, "id")))
      && (r.1.Err? ==> r.0 == t && r.1.error != UniqueIndexViolation)
      && (Get(attrs, "id").Bool? ==> r.1.Err?)
  {
    match New(s, attrs)
    case Err(e) => (t, Err(e))
    case Ok(rec) => Save(t, rec)
  }

  /** A create whose attributes collide with a stored row on a unique index
      raises `UniqueIndexViolation` (or the sequence's own error once it is
      exhausted) and adds no row. */
  lemma CreateCollision(s: Schema, t: Table, attrs: Hash, other: nat)
    requires Valid(t) && !Truthy(Get(attrs, "id")) && attrs.vals.Keys <= s.writers
    requires other in t.rows && Collide(t.uniqueKeys, t.rows[other], New(s, attrs).value.attributes)
    ensures Create(s, t, attrs).1 == Err(if InInt4(t.nextId) then UniqueIndexViolation else StoreError(SequenceExhausted))
    ensures Create(s, t, attrs).0.rows == t.rows
  {
  }

  /** Creates whose documents differ on every unique index, from each other
      and from the stored rows, both succeed, under consecutive ids. */
  lemma CreateDistinctUniques(s: Schema, t: Table, a: Hash, b: Hash)
    requires Valid(t) && InInt4(t.nextId + 1)
    requires !Truthy(Get(a, "id")) && !Truthy(Get(b, "id"))
    requires a.vals.Keys <= s.writers && b.vals.Keys <= s.writers
    requires !CollidesWithRow(t, a, None) && !CollidesWithRow(t, b, None) && !Collide(t.uniqueKeys, a, b)
    ensures Create(s, t, a).1.Ok? && Id(Create(s, t, a).1.value) == Ok(Some(t.nextId))
    ensures Create(s, Create(s, t, a).0, b).1.Ok? && Id(Create(s, Create(s, t, a).0, b).1.value) == Ok(Some(t.nextId + 1))
  {
    CreateFresh(s, t, a);
    var t1 := Create(s, t, a).0;
    SecondCreate(s, t, t1, a, b);
  }

  /** A create without an id whose document collides with no stored row
      stores it under the next id. */
  lemma CreateFresh(s: Schema, t: Table, a: Hash)
    requires Valid(t) && InInt4(t.nextId) && !Truthy(Get(a, "id")) && a.vals.Keys <= s.writers
    requires !CollidesWithRow(t, a, None)
    ensures New(s, a).Ok? && New(s, a).value.attributes.vals == a.vals
    ensures Create(s, t, a).1.Ok? && Id(Create(s, t, a).1.value) == Ok(Some(t.nextId))
    ensures Create(s, t, a).0.rows == t.rows[t.nextId := New(s, a).value.attributes]
    ensures Create(s, t, a).0.nextId == t.nextId + 1 && Create(s, t, a).0.uniqueKeys == t.uniqueKeys
  {
    CollidesWithRowByContents(t, a, New(s, a).value.attributes);
  }

  /** The second of two such creates. */
  lemma SecondCreate(s: Schema, t: Table, t1: Table, a: Hash, b: Hash)
    requires Valid(t) && InInt4(t.nextId + 1) && !Truthy(Get(b, "id")) && b.vals.Keys <= s.writers
    requires New(s, a).Ok? && New(s, a).value.attributes.vals == a.vals
    requires Valid(t1) && t1.rows == t.rows[t.nextId := New(s, a).value.attributes]
    requires t1.nextId == t.nextId + 1 && t1.uniqueKeys == t.uniqueKeys
    requires !CollidesWithRow(t, b, None) && !Collide(t.uniqueKeys, a, b)
    ensures Create(s, t1, b).1.Ok? && Id(Create(s, t1, b).1.value) == Ok(Some(t.nextId + 1))
  {
    SecondCreateFree(t, t1, a, New(s, a).value.attributes, b);
    CreateFresh(s, t1, b);
  }

  /** After the first create, no stored row collides with the second
      document. */
  lemma SecondCreateFree(t: Table, t1: Table, a: Hash, ra: Hash, b: Hash)
    requires ra.vals == a.vals && t1.uniqueKeys == t.uniqueKeys
    requires t1.rows == t.rows[t.nextId := ra]
    requires !CollidesWithRow(t, b, None) && !Collide(t.uniqueKeys, a, b)
    ensures !CollidesWithRow(t1, b, None)
  {
    forall id | id in t1.rows
      ensures !Collide(t1.uniqueKeys, t1.rows[id], b)
    {
      if id == t.nextId {
        CollideByContents(t.uniqueKeys, b, ra, a);
        CollideSymmetric(t.uniqueKeys, ra, b);
      }
    }
  }

  /** Whether two documents collide depends only on their contents. */
  lemma CollideByContents(keys: set<Key>, x: Hash, y: Hash, z: Hash)
    requires y.vals == z.vals
    ensures Collide(keys, x, y) <==> Collide(keys, x, z)
    ensures Collide(keys, y, x) <==> Collide(keys, z, x)
  {
    assert forall k :: Get(y, k) == Get(z, k);
  }

  lemma CollidesWithRowByContents(t: Table, x: Hash, y: Hash)
    requires x.vals == y.vals
    ensures CollidesWithRow(t, x, None) <==> CollidesWithRow(t, y, None)
  {
    forall id | id in t.rows
      ensures Collide(t.uniqueKeys, t.rows[id], x) <==> Collide(t.uniqueKeys, t.rows[id], y)
    {
      CollideByContents(t.uniqueKeys, t.rows[id], x, y);
    }
  }

  /** `Model#load!`: the stored document of the row `@_id` names (nil when
      `@_id` is undefined) goes through `update`; nil when there is no such
      row. */
  function LoadBang(s: Schema, t: Table, rec: Record): (r: Result<Option<Record>>)
    ensures var key := if rec.ident.Some? then rec.ident.value else Nil;
      && (r.Err? <==> IdParam(key).Err? || (Lookup(t, key).Ok? && Lookup(t, key).value.Some? && !(Lookup(t, key).value.value.vals.Keys <= s.writers)))
      && (r.Ok? && r.value.None? <==> Lookup(t, key) == Ok(None))
      && (r.Ok? && r.value.Some? ==>
            r.value.value.ident == rec.ident
            && r.value.value.attributes.vals == rec.attributes.vals + Lookup(t, key).value.value.vals)
  {
    var key := if rec.ident.Some? then rec.ident.value else Nil;
    match Lookup(t, key)
    case Err(e) => Err(e)
    case Ok(None) => Ok(None)
    case Ok(Some(data)) =>
      match Update(s, rec, data)
      case Err(e) => Err(e)
      case Ok(loaded) => Ok(Some(loaded))
  }

  /** `Model[id]`: `new(id: id).load!`. */
  function Find(s: Schema, t: Table, id: Value): Result<Option<Record>> {
    match New(s, Single("id", id))
    case Err(e) => Err(e)
    case Ok(rec) => LoadBang(s, t, rec)
  }

  /** A truthy id builds a record with that id and an empty map, so
      `Model[id]` is the stored document of that row, or nil. */
  lemma FindById(s: Schema, t: Table, n: int)
    ensures Lookup(t, Int(n)).Ok? && Lookup(t, Int(n)).value.None? ==> Find(s, t, Int(n)) == Ok(None)
    ensures InInt4(n) && n >= 0 && n in t.rows && t.rows[n].vals.Keys <= s.writers ==>
      && Find(s, t, Int(n)).Ok? && Find(s, t, Int(n)).value.Some?
      && Find(s, t, Int(n)).value.value.ident == Some(Int(n))
      && Find(s, t, Int(n)).value.value.attributes.vals == t.rows[n].vals
    ensures InInt4(n) && (n < 0 || n !in t.rows) ==> Find(s, t, Int(n)) == Ok(None)
  {
    var rec := NewFromId(s, Int(n));
    var r := LoadBang(s, t, rec);
    assert Find(s, t, Int(n)) == r;
    if InInt4(n) && n >= 0 && n in t.rows {
      assert Lookup(t, Int(n)) == Ok(Some(t.rows[n]));
      EmptyOverridden(t.rows[n].vals);
    }
  }

  /** `new(id: id)` with a truthy id: a record with that id and no
      attributes. */
  lemma NewFromId(s: Schema, id: Value) returns (rec: Record)
    requires Truthy(id)
    ensures New(s, Single("id", id)) == Ok(rec)
    ensures rec.ident == Some(id) && rec.attributes.vals == map[]
  {
    assert Payload(Single("id", id)).vals == map[];
    rec := New(s, Single("id", id)).value;
  }

  /** A nil or false id does not leave the map in `initialize`, so `Model[]`
      calls the setter `id=`, which a model without an `id` attribute does
      not have. */
  lemma FindWithoutId(s: Schema, t: Table, id: Value)
    requires !Truthy(id) && "id" !in s.writers
    ensures Find(s, t, id) == Err(NoMethodError("id="))
  {
    var attrs := Single("id", id);
    assert "id" in Payload(attrs).vals;
  }

  /** `Model#destroy`: deletes the row of the record's id and returns the
      `id` column of the row deleted, as the driver's text. With no such row
      `ret.first` is nil and calling `[]` on it fails. */
  function Destroy(t: Table, rec: Record): (r: Result<(Table, Value)>)
    requires Valid(t)
    ensures r.Ok? ==> Valid(r.value.0) && r.value.0.nextId == t.nextId && r.value.0.uniqueKeys == t.uniqueKeys
    ensures var id := Id(rec);
      r.Ok? ==> && id.Ok? && id.value.Some?
                && InInt4(id.value.value) && id.value.value >= 0 && id.value.value in t.rows
                && r.value.0.rows == t.rows - {id.value.value}
                && r.value.1 == Str(Decimal(id.value.value))
    ensures var id := Id(rec);
      id.Ok? && id.value.Some? && InInt4(id.value.value) && id.value.value >= 0 && id.value.value in t.rows ==> r.Ok?
    ensures var id := Id(rec);
      id.Ok? && (id.value.Some? ==> InInt4(id.value.value) && (id.value.value < 0 || id.value.value !in t.rows)) ==>
        r == Err(NoMethodError("[]"))
  {
    match Id(rec)
    case Err(e) => Err(e)
    case Ok(id) =>
      match DeleteRow(t, IdValue(id))
      case Err(e) => Err(e)
      case Ok((t', None)) => Err(NoMethodError("[]"))
      case Ok((t', Some(n))) =>
        assert id == Some(n);
        Ok((t', Str(Decimal(n))))
  }

  /** After a record is destroyed, `Model[id]` with its id is nil. */
  lemma FindAfterDestroy(s: Schema, t: Table, rec: Record, n: int)
    requires Valid(t) && Id(rec) == Ok(Some(n)) && Destroy(t, rec).Ok?
    ensures Find(s, Destroy(t, rec).value.0, Int(n)) == Ok(None)
  {
    FindById(s, Destroy(t, rec).value.0, n);
  }

  /** A row as `filter` yields it: the decoded document with `id` set to
      the row id, given to `new`. */
  function Materialize(s: Schema, id: nat, data: Hash): (r: Result<Record>)
    ensures r.Ok? <==> data.vals.Keys - {"id"} <= s.writers
    ensures r.Ok? ==> r.value.ident == Some(Int(id)) && r.value.attributes.vals == data.vals - {"id"}
    ensures r.Ok? ==> Id(r.value) == Ok(Some(id))
  {
    StampedPayload(data, id);
    New(s, Put(data, "id", Int(id)))
  }

  /** The row id stamped on a document becomes the record's id and leaves
      the rest of the document as the payload. */
  lemma StampedPayload(data: Hash, id: nat)
    ensures Get(Put(data, "id", Int(id)), "id") == Int(id)
    ensures Payload(Put(data, "id", Int(id))).vals == data.vals - {"id"}
  {
    UpdateMinus(data.vals, "id", Int(id));
  }

  /** The records built from the rows of the given ids, keyed by id. */
  function Yield(s: Schema, t: Table, ids: set<nat>): (rows: map<nat, Result<Record>>)
    requires ids <= t.rows.Keys
    ensures rows.Keys == ids
    ensures forall id :: id in rows ==> rows[id] == Materialize(s, id, t.rows[id])
  {
    map id | id in ids :: Materialize(s, id, t.rows[id])
  }

  /** `Model.filter(conditions)`: one record, or the error building it
      raises, for each row the query returns, keyed by row id. */
  function Filter(s: Schema, t: Table, conditions: Hash): (r: Result<map<nat, Result<Record>>>)
    ensures r.Ok? <==> Query.ConditionsError(conditions).None?
    ensures r.Err? ==> r.error == Query.ConditionsError(conditions).value
    ensures r.Ok? ==> Query.Rows(t, conditions).Ok? && r.value == Yield(s, t, Query.Rows(t, conditions).value)
  {
    match Query.Rows(t, conditions)
    case Err(e) => Err(e)
    case Ok(ids) => Ok(Yield(s, t, ids))
  }

  /** The `first` of what `filter` yields: nil for no row, else the row of
      least id (the only one under the orderings the model interprets). */
  function First(rows: map<nat, Result<Record>>): (r: Result<Option<Record>>)
    ensures r == Ok(None) <==> rows == map[]
    ensures rows != map[] ==>
      exists id :: id in rows && (forall j :: j in rows ==> id <= j) && r == OptionOf(rows[id])
  {
    if rows == map[] then Ok(None)
    else
      var id := Query.Min(rows.Keys);
      OptionOf(rows[id])
  }

  /** One row yields one record, which is the first; no row has no
      first. */
  lemma FirstOfYield(s: Schema, t: Table, id: nat)
    requires id in t.rows
    ensures First(Yield(s, t, {id})) == OptionOf(Materialize(s, id, t.rows[id]))
    ensures First(Yield(s, t, {})) == Ok(None)
  {
    YieldOne(s, t, id);
    FirstOfOne(id, Materialize(s, id, t.rows[id]));
    YieldNone(s, t);
  }

  lemma YieldNone(s: Schema, t: Table)
    ensures Yield(s, t, {}) == map[]
  {
    EmptyMap(Yield(s, t, {}));
  }

  lemma EmptyMap<V>(m: map<nat, V>)
    requires m.Keys == {}
    ensures m == map[]
  {
  }

  lemma YieldOne(s: Schema, t: Table, id: nat)
    requires id in t.rows
    ensures Yield(s, t, {id}) == map[id := Materialize(s, id, t.rows[id])]
  {
    var rows := Yield(s, t, {id});
    assert id in rows;
    SingletonMap(rows, id, Materialize(s, id, t.rows[id]));
  }

  lemma SingletonMap<V>(m: map<nat, V>, id: nat, x: V)
    requires m.Keys == {id} && id in m && m[id] == x
    ensures m == map[id := x]
  {
  }

  /** A single row is the first one. */
  lemma FirstOfOne(id: nat, x: Result<Record>)
    ensures First(map[id := x]) == OptionOf(x)
  {
    assert map[id := x].Keys == {id};
  }

  function OptionOf(r: Result<Record>): Result<Option<Record>> {
    match r
    case Ok(rec) => Ok(Some(rec))
    case Err(e) => Err(e)
  }

  /** A record created without an id is found again by `Model[]` with its
      id: the same id and the same attributes, read through the getters
      with the casters they declare. */
  lemma CreateThenFind(s: Schema, t: Table, attrs: Hash)
    requires Valid(t) && !Truthy(Get(attrs, "id"))
    requires Create(s, t, attrs).1.Ok?
    ensures var created := Create(s, t, attrs);
      var found := Find(s, created.0, Int(t.nextId));
      && found.Ok? && found.value.Some?
      && Id(found.value.value) == Id(created.1.value)
      && found.value.value.attributes.vals == created.1.value.attributes.vals
  {
    var created := Create(s, t, attrs);
    var rec := created.1.value;
    assert created.0.rows[t.nextId] == rec.attributes;
    assert rec.attributes.vals.Keys <= s.writers;
    FindStored(s, created.0, t.nextId, rec);
  }

  /** `Model[]` on the id of a stored row whose names all have setters
      finds a record with that id and the row's document. */
  lemma FindStored(s: Schema, t: Table, n: nat, rec: Record)
    requires InInt4(n) && n in t.rows && t.rows[n] == rec.attributes && rec.attributes.vals.Keys <= s.writers
    requires Id(rec) == Ok(Some(n))
    ensures var found := Find(s, t, Int(n));
      && found.Ok? && found.value.Some?
      && Id(found.value.value) == Id(rec)
      && found.value.value.attributes.vals == rec.attributes.vals
  {
    FindById(s, t, n);
  }

  /** The read of an attribute after `create` and `Model[]` is its caster
      applied to the value given to `create`: `n: 1` under `to_i` reads 1. */
  lemma CreateFindRead(s: Schema, t: Table, attrs: Hash, name: Key)
    requires Valid(t) && !Truthy(Get(attrs, "id"))
    requires Create(s, t, attrs).1.Ok?
    requires name in s.readers && s.readers[name].ValueReader?
    ensures var found := Find(s, Create(s, t, attrs).0, Int(t.nextId));
      && found.Ok? && found.value.Some?
      && Read(s, found.value.value.attributes, name) == Cast(s.readers[name].caster, Get(attrs, s.readers[name].key))
  {
    CreateThenFind(s, t, attrs);
  }
}
