/**
  `Shoden::Proxy`: the children of one parent record, as `collection`
  returns them. Every query the proxy sends carries the parent filter, a
  condition map pinning the foreign key `<parent reference>_id` to the
  parent's id; `first`, `last` and `[]` add `order` or `id` to it, and
  `create` merges it into the child's attributes.

  A reference declared on the child (`reference :tree, :Tree`) reads the
  parent back through the same key.
 */
module Relations {
  import opened Errors
  import opened Values
  import opened OrderedHash
  import opened Schema
  import opened Store
  import opened Records
  import Naming
  import Query

  /** `Proxy.new(klass, parent)`: the child model's registry, the class name
      of the parent and the parent record. */
  datatype Proxy = Proxy(child: Schema, parentClass: string, parent: Record)

  /** `Proxy#key`. */
  function Key(p: Proxy): (k: Key)
    ensures |k| >= 3 && k[..|k| - 3] == Naming.ToReference(p.parentClass) && k[|k| - 3..] == "_id"
    ensures k != "id" && k != "order"
  {
    Naming.ForeignKey(p.parentClass)
  }

  /** `Proxy#parent_filter`: `{ key => parent.id }`. */
  function ParentFilter(p: Proxy): (r: Result<Hash>)
    ensures r.Err? <==> Id(p.parent).Err?
    ensures r.Ok? ==> r.value == Single(Key(p), IdValue(Id(p.parent).value))
  {
    match Id(p.parent)
    case Err(e) => Err(e)
    case Ok(id) => Ok(Single(Key(p), IdValue(id)))
  }

  /** The parent filter selects a row exactly when the row's document gives
      the key the text of the parent's id. */
  lemma ParentFilterSelectsChildren(p: Proxy, rowId: nat, data: Hash)
    requires Id(p.parent).Ok?
    ensures ParentFilter(p).Ok?
    ensures Query.Satisfies(ParentFilter(p).value, rowId, data) <==>
      ChildOf(data, Key(p), IdValue(Id(p.parent).value))
  {
    var f := ParentFilter(p).value;
    var key := Key(p);
    assert f.vals == map[key := IdValue(Id(p.parent).value)];
    assert Query.FieldConditions(f).vals == f.vals - {"id", "order"};
    assert f.vals - {"id", "order"} == f.vals;
    ScopedSatisfies(f, key, IdValue(Id(p.parent).value), rowId, data);
  }

  /** A stored child document points at the parent: the text `->>` gives for
      the key is the text of the parent's id. A parent without an id
      (NULL) has no children. */
  predicate ChildOf(data: Hash, key: Key, parentId: Value) {
    Text(parentId).Some? && Text(Get(data, key)) == Text(parentId)
  }

  /** The ids of the rows that are children of the parent. */
  function Children(t: Table, key: Key, parentId: Value): (ids: set<nat>)
    ensures ids <= t.rows.Keys
  {
    set id | id in t.rows && ChildOf(t.rows[id], key, parentId)
  }

  /** A map whose field conditions are just the parent filter selects a row
      exactly when it is a child of the parent and, if the map has a truthy
      id, the row has that id. */
  lemma ScopedSatisfies(conditions: Hash, key: Key, parentId: Value, rowId: nat, data: Hash)
    requires key != "id" && key != "order"
    requires Query.FieldConditions(conditions).vals == map[key := parentId]
    ensures Query.Satisfies(conditions, rowId, data) <==>
      ChildOf(data, key, parentId)
      && (Truthy(Get(conditions, "id")) ==> IdParam(Get(conditions, "id")) == Ok(Some(rowId)))
  {
    var fields := Query.FieldConditions(conditions);
    assert Query.FieldsHold(fields, data) <==> Query.FieldMatches(fields, data, key);
  }

  /** The field conditions of a proxy's condition map are non-empty, so the
      statement always has a WHERE clause. */
  lemma ScopedHasField(conditions: Hash, key: Key, parentId: Value)
    requires Query.FieldConditions(conditions).vals == map[key := parentId]
    ensures Size(Query.FieldConditions(conditions)) > 0
  {
    assert key in KeySet(Query.FieldConditions(conditions).keys);
  }

  /** The rows selected by a map whose only field condition is the parent
      filter and which has no id are the parent's children. */
  lemma ScopedSatisfying(t: Table, conditions: Hash, key: Key, parentId: Value)
    requires key != "id" && key != "order" && !Truthy(Get(conditions, "id"))
    requires Query.FieldConditions(conditions).vals == map[key := parentId]
    ensures Query.ConditionsError(conditions).None?
    ensures Query.Satisfying(t, conditions) == Children(t, key, parentId)
  {
    ScopedHasField(conditions, key, parentId);
    forall id | id in t.rows
      ensures Query.Satisfies(conditions, id, t.rows[id]) <==> ChildOf(t.rows[id], key, parentId)
    {
      ScopedSatisfies(conditions, key, parentId, id, t.rows[id]);
    }
  }

  /** The parent filter separates parents: a row pointing at the integer
      id `q` is a child of the parent with id `n` exactly when `q == n`. */
  lemma ChildrenSeparateParents(t: Table, key: Key, rowId: nat, q: int, n: int)
    requires rowId in t.rows && Get(t.rows[rowId], key) == Int(q)
    ensures rowId in Children(t, key, Int(n)) <==> q == n
  {
    IntTextInjective(q, n);
  }

  /** `Proxy#create`: the child is created with the key set to the parent's
      id, whatever the caller passed for it. */
  function Create(p: Proxy, t: Table, args: Hash): (r: (Table, Result<Record>))
    requires Valid(t)
    ensures Valid(r.0)
    ensures Id(p.parent).Err? ==> r.0 == t && r.1.Err?
    ensures r.1.Ok? ==> Get(r.1.value.attributes, Key(p)) == IdValue(Id(p.parent).value)
    ensures r.1.Ok? ==> r.1.value.attributes.vals == Payload(args).vals[Key(p) := IdValue(Id(p.parent).value)]
  {
    match ParentFilter(p)
    case Err(e) => (t, Err(e))
    case Ok(f) =>
      var attrs := Merge(args, f);
      PayloadPinned(args, Key(p), IdValue(Id(p.parent).value));
      Records.Create(p.child, t, attrs)
  }

  /** Pinning a key other than `id` commutes with taking the id out. */
  lemma PayloadPinned(args: Hash, key: Key, v: Value)
    requires key != "id"
    ensures Payload(Merge(args, Single(key, v))).vals == Payload(args).vals[key := v]
  {
    var attrs := Merge(args, Single(key, v));
    MergeSingle(args, key, v);
    MergeKeeps(args, Single(key, v), "id");
    if Truthy(Get(args, "id")) {
      MinusUpdate(args.vals, key, v, "id");
    }
  }

  /** A child created through the proxy is then among the proxy's children:
      its row is stored under the id the sequence gave it and points at the
      parent. */
  lemma CreateThenAll(p: Proxy, t: Table, args: Hash, n: int)
    requires Valid(t) && Id(p.parent) == Ok(Some(n)) && !Truthy(Get(args, "id"))
    requires Create(p, t, args).1.Ok?
    ensures var created := Create(p, t, args);
      && Id(created.1.value) == Ok(Some(t.nextId))
      && t.nextId in Children(created.0, Key(p), Int(n))
  {
    var f := ParentFilter(p).value;
    assert f == Single(Key(p), Int(n));
    var attrs := Merge(args, f);
    MergeKeeps(args, f, "id");
    var created := Records.Create(p.child, t, attrs);
    assert Create(p, t, args) == created;
    StoredChild(t, created.0, created.1.value.attributes, Key(p), n);
  }

  /** A document stored under the next id that points at the parent is a
      child of it. */
  lemma StoredChild(t: Table, t': Table, data: Hash, key: Key, n: int)
    requires t'.rows == t.rows[t.nextId := data] && Get(data, key) == Int(n)
    ensures t.nextId in Children(t', key, Int(n))
  {
    assert ChildOf(t'.rows[t.nextId], key, Int(n));
  }

  /** `Proxy#all`: the children, as `filter` yields them. */
  function All(p: Proxy, t: Table): (r: Result<map<nat, Result<Record>>>)
    ensures r.Err? <==> Id(p.parent).Err?
    ensures r.Ok? ==> r.value.Keys == Children(t, Key(p), IdValue(Id(p.parent).value))
    ensures r.Ok? ==> forall id :: id in r.value ==> r.value[id] == Materialize(p.child, id, t.rows[id])
  {
    match ParentFilter(p)
    case Err(e) => Err(e)
    case Ok(f) =>
      ScopedSatisfying(t, f, Key(p), IdValue(Id(p.parent).value));
      Filter(p.child, t, f)
  }

  /** `Proxy#count`: a `COUNT(id)` under the parent filter. */
  function Count(p: Proxy, t: Table): (r: Result<nat>)
    ensures r.Err? <==> Id(p.parent).Err?
    ensures r.Ok? ==> r.value == |Children(t, Key(p), IdValue(Id(p.parent).value))|
  {
    match ParentFilter(p)
    case Err(e) => Err(e)
    case Ok(f) =>
      ScopedSatisfying(t, f, Key(p), IdValue(Id(p.parent).value));
      Query.Count(t, f)
  }

  /** `Proxy#any?`: `count > 0`. */
  function Any(p: Proxy, t: Table): (r: Result<bool>)
    ensures r.Err? <==> Id(p.parent).Err?
    ensures r.Ok? ==> (r.value <==> Children(t, Key(p), IdValue(Id(p.parent).value)) != {})
    ensures r.Ok? ==> (r.value <==> Count(p, t).value > 0)
  {
    match Count(p, t)
    case Err(e) => Err(e)
    case Ok(n) => Ok(n > 0)
  }

  /** The map `first`, `last` and `[]` send: the pair they add, then the
      parent filter merged into it. */
  function Scoped(p: Proxy, k: Key, v: Value, parentId: Value): (c: Hash)
    requires k == "id" || k == "order"
    ensures c.keys == [k, Key(p)]
    ensures c.vals == map[k := v, Key(p) := parentId]
    ensures Query.FieldConditions(c).vals == map[Key(p) := parentId]
  {
    var key := Key(p);
    SinglePutKeys(k, v, key, parentId);
    SinglePutVals(k, v, key, parentId);
    PairMinus(k, v, key, parentId, {"id", "order"});
    Put(Single(k, v), key, parentId)
  }

  /** `filter(...).first` under one of the two orderings the proxy sends:
      the row of least (or greatest) id among those selected. */
  lemma OrderedFirst(child: Schema, t: Table, c: Hash, kids: set<nat>, ascending: bool)
    requires Query.ConditionsError(c).None? && !Query.Translate(c).byId && Query.Satisfying(t, c) == kids
    requires Get(c, "order") == Str(if ascending then Query.FirstById else Query.LastById)
    ensures Filter(child, t, c).Ok?
    ensures kids == {} ==> Records.First(Filter(child, t, c).value) == Ok(None)
    ensures kids != {} ==>
      var id := if ascending then Query.Min(kids) else Query.Max(kids);
      Records.First(Filter(child, t, c).value) == OptionOf(Materialize(child, id, t.rows[id]))
  {
    Query.RowsOrdered(t, c, ascending);
    if kids != {} {
      var id := if ascending then Query.Min(kids) else Query.Max(kids);
      FirstOfRows(child, t, c, {id});
      FirstOfYield(child, t, id);
    } else {
      FirstOfRows(child, t, c, {});
      assert Yield(child, t, {}) == map[];
    }
  }

  /** `Proxy#first`: the child of least id, under "id ASC LIMIT 1". */
  function First(p: Proxy, t: Table): (r: Result<Option<Record>>)
    ensures Id(p.parent).Err? ==> r.Err?
    ensures Id(p.parent).Ok? && Children(t, Key(p), IdValue(Id(p.parent).value)) == {} ==> r == Ok(None)
    ensures Id(p.parent).Ok? && Children(t, Key(p), IdValue(Id(p.parent).value)) != {} ==>
      var id := Query.Min(Children(t, Key(p), IdValue(Id(p.parent).value)));
      r == OptionOf(Materialize(p.child, id, t.rows[id]))
  {
    match Id(p.parent)
    case Err(e) => Err(e)
    case Ok(pid) =>
      var c := Scoped(p, "order", Str(Query.FirstById), IdValue(pid));
      ScopedSatisfying(t, c, Key(p), IdValue(pid));
      FirstLastConditions(p, IdValue(pid));
      OrderedFirst(p.child, t, c, Children(t, Key(p), IdValue(pid)), true);
      Records.First(Filter(p.child, t, c).value)
  }

  /** `Proxy#last`: the child of greatest id, under "id DESC LIMIT 1". */
  function Last(p: Proxy, t: Table): (r: Result<Option<Record>>)
    ensures Id(p.parent).Err? ==> r.Err?
    ensures Id(p.parent).Ok? && Children(t, Key(p), IdValue(Id(p.parent).value)) == {} ==> r == Ok(None)
    ensures Id(p.parent).Ok? && Children(t, Key(p), IdValue(Id(p.parent).value)) != {} ==>
      var id := Query.Max(Children(t, Key(p), IdValue(Id(p.parent).value)));
      r == OptionOf(Materialize(p.child, id, t.rows[id]))
  {
    match Id(p.parent)
    case Err(e) => Err(e)
    case Ok(pid) =>
      var c := Scoped(p, "order", Str(Query.LastById), IdValue(pid));
      ScopedSatisfying(t, c, Key(p), IdValue(pid));
      FirstLastConditions(p, IdValue(pid));
      OrderedFirst(p.child, t, c, Children(t, Key(p), IdValue(pid)), false);
      Records.First(Filter(p.child, t, c).value)
  }

  /** `first` and `last` keep the parent key as their only field condition
      and send the ordering only under `order`. */
  lemma FirstLastConditions(p: Proxy, parentId: Value)
    ensures var c := Scoped(p, "order", Str(Query.FirstById), parentId);
      Query.FieldConditions(c).vals == map[Key(p) := parentId] && Get(c, "order") == Str(Query.FirstById) && !Query.Translate(c).byId
    ensures var c := Scoped(p, "order", Str(Query.LastById), parentId);
      Query.FieldConditions(c).vals == map[Key(p) := parentId] && Get(c, "order") == Str(Query.LastById) && !Query.Translate(c).byId
  {
    ScopedHasField(Scoped(p, "order", Str(Query.FirstById), parentId), Key(p), parentId);
    ScopedHasField(Scoped(p, "order", Str(Query.LastById), parentId), Key(p), parentId);
  }

  /** The rows `[](id)` selects: the row of that id if it is a child of the
      parent, else none. */
  lemma AtSatisfiesRow(p: Proxy, id: Value, parentId: Value, n: int, rowId: nat, data: Hash)
    requires Truthy(id) && IdParam(id) == Ok(Some(n))
    ensures Query.Satisfies(Scoped(p, "id", id, parentId), rowId, data) <==> ChildOf(data, Key(p), parentId) && rowId == n
  {
    var c := Scoped(p, "id", id, parentId);
    assert Get(c, "id") == id;
    ScopedSatisfies(c, Key(p), parentId, rowId, data);
  }

  /** Conditions that hold of exactly the child row with id `n` select that
      row, if it is a child, and nothing otherwise. */
  lemma SatisfyingOnlyChild(t: Table, c: Hash, key: Key, parentId: Value, n: int)
    requires forall rowId: nat, data: Hash :: Query.Satisfies(c, rowId, data) <==> ChildOf(data, key, parentId) && rowId == n
    ensures Query.Satisfying(t, c) == if n >= 0 && n in Children(t, key, parentId) then {n as nat} else {}
  {
    var sat := Query.Satisfying(t, c);
    var expected: set<nat> := if n >= 0 && n in Children(t, key, parentId) then {n as nat} else {};
    forall rowId | rowId in sat
      ensures rowId in expected
    {
      assert Query.Satisfies(c, rowId, t.rows[rowId]);
    }
    forall rowId | rowId in expected
      ensures rowId in sat
    {
      assert ChildOf(t.rows[rowId], key, parentId);
    }
  }

  lemma AtSatisfying(p: Proxy, t: Table, id: Value, parentId: Value, n: int)
    requires Truthy(id) && IdParam(id) == Ok(Some(n))
    ensures var c := Scoped(p, "id", id, parentId);
      Query.Satisfying(t, c) == if n >= 0 && n in Children(t, Key(p), parentId) then {n as nat} else {}
  {
    var c := Scoped(p, "id", id, parentId);
    forall rowId: nat, data: Hash
      ensures Query.Satisfies(c, rowId, data) <==> ChildOf(data, Key(p), parentId) && rowId == n
    {
      AtSatisfiesRow(p, id, parentId, n, rowId, data);
    }
    SatisfyingOnlyChild(t, c, Key(p), parentId, n);
  }

  lemma AtRows(p: Proxy, t: Table, id: Value, parentId: Value, n: int)
    requires Truthy(id) && IdParam(id) == Ok(Some(n))
    ensures var c := Scoped(p, "id", id, parentId);
      Query.Rows(t, c) == Ok(if n >= 0 && n in Children(t, Key(p), parentId) then {n as nat} else {})
  {
    var c := Scoped(p, "id", id, parentId);
    ScopedById(p, id, parentId);
    Query.RowsUnordered(t, c);
    AtSatisfying(p, t, id, parentId, n);
  }

  /** The map `[](id)` sends for an integer id is usable and unordered. */
  lemma ScopedById(p: Proxy, id: Value, parentId: Value)
    requires Truthy(id) && IdParam(id).Ok?
    ensures var c := Scoped(p, "id", id, parentId);
      Get(c, "id") == id && Get(c, "order") == Nil && Query.ConditionsError(c).None?
  {
    ByIdConditions(Scoped(p, "id", id, parentId), id, Key(p), parentId);
  }

  lemma ByIdConditions(c: Hash, id: Value, key: Key, parentId: Value)
    requires Truthy(id) && IdParam(id).Ok?
    requires key != "id" && key != "order" && c.vals == map["id" := id, key := parentId]
    ensures Get(c, "id") == id && Get(c, "order") == Nil && Query.ConditionsError(c).None?
  {
    assert "id"[0] != "order"[0];
    assert Get(c, "id") == id && Get(c, "order") == Nil;
    Query.IdConditionsUsable(c);
  }

  /** The `first` of what `filter` gives, or its error. */
  function FirstOf(rows: Result<map<nat, Result<Record>>>): Result<Option<Record>> {
    match rows
    case Err(e) => Err(e)
    case Ok(rows) => Records.First(rows)
  }

  /** An id Postgres cannot read as an integer makes `[](id)` fail. */
  lemma AtBadId(p: Proxy, t: Table, id: Value, parentId: Value)
    requires Truthy(id) && IdParam(id).Err?
    ensures FirstOf(Filter(p.child, t, Scoped(p, "id", id, parentId))) == Err(StoreError(InvalidInteger))
  {
    var c := Scoped(p, "id", id, parentId);
    assert Get(c, "id") == id;
    assert Query.ConditionsError(c) == Some(StoreError(InvalidInteger));
  }

  /** What `[](id)` finds for an integer id: the row when it is a child of
      the parent, else nothing. */
  lemma AtGoodId(p: Proxy, t: Table, id: Value, parentId: Value, n: int)
    requires Truthy(id) && IdParam(id) == Ok(Some(n))
    ensures FirstOf(Filter(p.child, t, Scoped(p, "id", id, parentId))) ==
      if n >= 0 && n in Children(t, Key(p), parentId) then OptionOf(Materialize(p.child, n, t.rows[n])) else Ok(None)
  {
    var c := Scoped(p, "id", id, parentId);
    var ids: set<nat> := if n >= 0 && n in Children(t, Key(p), parentId) then {n as nat} else {};
    AtRows(p, t, id, parentId, n);
    FirstOfRows(p.child, t, c, ids);
    if ids != {} {
      FirstOfYield(p.child, t, n);
    } else {
      assert Yield(p.child, t, {}) == map[];
    }
  }

  /** `filter(...).first` over the rows a query selects. */
  lemma FirstOfRows(s: Schema, t: Table, c: Hash, ids: set<nat>)
    requires Query.Rows(t, c) == Ok(ids)
    ensures FirstOf(Filter(s, t, c)) == Records.First(Yield(s, t, ids))
  {
  }

  /** `Proxy#[](id)`: the child with that id; nil when the row is missing or
      belongs to another parent. A nil or false id is dropped from the
      conditions, which leaves the parent filter alone. */
  function At(p: Proxy, t: Table, id: Value): (r: Result<Option<Record>>)
    ensures Id(p.parent).Err? ==> r.Err?
    ensures Id(p.parent).Ok? && Truthy(id) && IdParam(id).Err? ==> r == Err(StoreError(InvalidInteger))
    ensures Id(p.parent).Ok? && Truthy(id) && IdParam(id).Ok? && IdParam(id).value.Some? ==>
      var n := IdParam(id).value.value;
      if n >= 0 && n in Children(t, Key(p), IdValue(Id(p.parent).value)) then r == OptionOf(Materialize(p.child, n, t.rows[n]))
      else r == Ok(None)
    ensures Id(p.parent).Ok? && !Truthy(id) ==>
      var kids := Children(t, Key(p), IdValue(Id(p.parent).value));
      r == if kids == {} then Ok(None) else OptionOf(Materialize(p.child, Query.Min(kids), t.rows[Query.Min(kids)]))
  {
    match Id(p.parent)
    case Err(e) => Err(e)
    case Ok(pid) =>
      if Truthy(id) && IdParam(id).Err? then
        AtBadId(p, t, id, IdValue(pid));
        FirstOf(Filter(p.child, t, Scoped(p, "id", id, IdValue(pid))))
      else if Truthy(id) && IdParam(id).Ok? && IdParam(id).value.Some? then
        AtGoodId(p, t, id, IdValue(pid), IdParam(id).value.value);
        FirstOf(Filter(p.child, t, Scoped(p, "id", id, IdValue(pid))))
      else if !Truthy(id) then
        AtFalsyId(p, t, id, IdValue(pid));
        FirstOf(Filter(p.child, t, Scoped(p, "id", id, IdValue(pid))))
      else
        FirstOf(Filter(p.child, t, Scoped(p, "id", id, IdValue(pid))))
  }

  /** `[](nil)` and `[](false)` drop the id: the query is the parent filter
      alone, and its first row is the child of least id. */
  lemma AtFalsyId(p: Proxy, t: Table, id: Value, parentId: Value)
    requires !Truthy(id)
    ensures var kids := Children(t, Key(p), parentId);
      FirstOf(Filter(p.child, t, Scoped(p, "id", id, parentId))) ==
        if kids == {} then Ok(None) else OptionOf(Materialize(p.child, Query.Min(kids), t.rows[Query.Min(kids)]))
  {
    var c := Scoped(p, "id", id, parentId);
    var kids := Children(t, Key(p), parentId);
    assert Get(c, "id") == id && Get(c, "order") == Nil;
    ScopedSatisfying(t, c, Key(p), parentId);
    Query.RowsUnordered(t, c);
    FirstOfRows(p.child, t, c, kids);
    if kids != {} {
      FirstOfAll(p.child, t, kids);
    }
  }

  /** The first of several yielded rows is the record of least id. */
  lemma FirstOfAll(s: Schema, t: Table, ids: set<nat>)
    requires ids != {} && ids <= t.rows.Keys
    ensures Records.First(Yield(s, t, ids)) == OptionOf(Materialize(s, Query.Min(ids), t.rows[Query.Min(ids)]))
  {
    var rows := Yield(s, t, ids);
    var m := Query.Min(ids);
    var id :| id in rows && (forall j :: j in rows ==> id <= j) && Records.First(rows) == OptionOf(rows[id]);
    assert id <= m && m <= id;
  }

  /** The reader `reference :name, :Model` defines: `Model[send(:name_id)]`,
      looked up in the referenced model's table. `Model` is the class the
      name denotes at the top level, the lookup `collection` makes; the
      reader as written looks it up inside `Shoden` (`ReferencedAsWritten`). */
  function Referenced(parent: Schema, parentTable: Table, s: Schema, rec: Record, name: Key): (r: Result<Option<Record>>)
    requires name in s.readers && s.readers[name].ParentReader?
    ensures var v := Get(rec.attributes, s.readers[name].key);
      v.Int? && InInt4(v.i) && v.i >= 0 && v.i in parentTable.rows && parentTable.rows[v.i].vals.Keys <= parent.writers ==>
        && r.Ok? && r.value.Some?
        && r.value.value.ident == Some(v)
        && r.value.value.attributes.vals == parentTable.rows[v.i].vals
    ensures var v := Get(rec.attributes, s.readers[name].key);
      v.Int? && InInt4(v.i) && (v.i < 0 || v.i !in parentTable.rows) ==> r == Ok(None)
    ensures var v := Get(rec.attributes, s.readers[name].key);
      !Truthy(v) && "id" !in parent.writers ==> r == Err(NoMethodError("id="))
  {
    var v := Get(rec.attributes, s.readers[name].key);
    if v.Int? then
      FindById(parent, parentTable, v.i);
      Find(parent, parentTable, v)
    else if !Truthy(v) && "id" !in parent.writers then
      FindWithoutId(parent, parentTable, v);
      Find(parent, parentTable, v)
    else
      Find(parent, parentTable, v)
  }

  /** The constants the library itself defines inside `module Shoden`. */
  const LibraryConstants: set<string> := {"Error", "MissingID", "NotFound", "UniqueIndexViolation", "Model", "Proxy"}

  /** The `reference` reader as written: `Kernel.const_get("Shoden::#{model}")`
      looks the segment after `Shoden::` up in `Shoden` alone, without falling
      back to the top-level constants, so it raises NameError unless the
      parent class is defined inside `module Shoden`. `shodenConstants` are
      the constant paths that resolve there. When the lookup succeeds, the
      reader is `Referenced`. */
  function ReferencedAsWritten(shodenConstants: set<string>, parent: Schema, parentTable: Table, s: Schema, rec: Record, name: Key): (r: Result<Option<Record>>)
    requires name in s.readers && s.readers[name].ParentReader?
    ensures s.readers[name].parentClass !in shodenConstants ==> r == Err(NameError("Shoden::" + s.readers[name].parentClass))
    ensures s.readers[name].parentClass in shodenConstants ==> r == Referenced(parent, parentTable, s, rec, name)
  {
    var model := s.readers[name].parentClass;
    if model !in shodenConstants then Err(NameError("Shoden::" + model))
    else Referenced(parent, parentTable, s, rec, name)
  }

  /** A parent model defined at the top level, like the `Tree` the library's
      own tests declare next to `reference :tree, :Tree`, is never found: the
      reader as written raises NameError where the top-level lookup reads the
      stored parent back. */
  lemma TopLevelParentRaises(parent: Schema, parentTable: Table, s: Schema, rec: Record, name: Key, n: int)
    requires name in s.readers && s.readers[name] == ParentReader(ReferenceKey(name), "Tree")
    requires Get(rec.attributes, ReferenceKey(name)) == Int(n)
    requires InInt4(n) && n >= 0 && n in parentTable.rows && parentTable.rows[n].vals.Keys <= parent.writers
    ensures ReferencedAsWritten(LibraryConstants, parent, parentTable, s, rec, name) == Err(NameError("Shoden::Tree"))
    ensures var r := Referenced(parent, parentTable, s, rec, name);
      r.Ok? && r.value.Some? && r.value.value.ident == Some(Int(n)) && r.value.value.attributes.vals == parentTable.rows[n].vals
  {
    assert "Tree" !in LibraryConstants by {
      assert |"Tree"| == 4;
    }
    assert "Shoden::" + "Tree" == "Shoden::Tree";
  }

  /** A child created through a parent's proxy reads that parent back through
      its `reference`: the proxy's key is the reference's `<name>_id`. */
  lemma CreatedChildReferencesParent(p: Proxy, t: Table, parent: Schema, parentTable: Table, args: Hash, n: int)
    requires Valid(t) && Id(p.parent) == Ok(Some(n)) && Create(p, t, args).1.Ok?
    requires var name := Naming.ToReference(p.parentClass);
      name in p.child.readers && p.child.readers[name].ParentReader? && p.child.readers[name].key == ReferenceKey(name)
    requires InInt4(n) && n >= 0 && n in parentTable.rows && parentTable.rows[n].vals.Keys <= parent.writers
    ensures var r := Referenced(parent, parentTable, p.child, Create(p, t, args).1.value, Naming.ToReference(p.parentClass));
      && r.Ok? && r.value.Some?
      && r.value.value.ident == Some(Int(n))
      && r.value.value.attributes.vals == parentTable.rows[n].vals
  {
    var name := Naming.ToReference(p.parentClass);
    assert ReferenceKey(name) == Key(p);
    var child := Create(p, t, args).1.value;
    assert Get(child.attributes, Key(p)) == Int(n);
  }
}
