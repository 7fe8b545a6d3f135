/**
  `Model.query`: the translation of a conditions map into a parametrized
  WHERE clause, and what the database does with the statement.

  The reserved key `id` selects by primary key and `order` is appended as
  an ORDER BY clause; every other pair is an equality between the text the
  document holds under the key and the value's text. Keys and values travel
  only as parameters `$k`.
 */
module Query {
  import opened Errors
  import opened Values
  import opened OrderedHash
  import opened Store
  import Naming

  /** `data->>$a = $b` and `id = $a`, by placeholder number. */
  datatype Predicate = FieldEquals(keyParam: nat, valueParam: nat) | IdEquals(param: nat)

  /** A translated statement. `byId` is the primary-key path, which ignores
      any ordering. */
  datatype Statement = Statement(predicates: seq<Predicate>, params: seq<Value>, order: Option<string>, byId: bool)

  /** The conditions other than the reserved `id` and `order`. */
  function FieldConditions(conditions: Hash): (fields: Hash)
    ensures fields.vals == conditions.vals - {"id", "order"}
  {
    Delete(Delete(conditions, "id"), "order")
  }

  /** The text string interpolation gives a truthy value. */
  function Interpolated(v: Value): string {
    match v
    case Nil => ""
    case Bool(b) => if b then "true" else "false"
    case Int(i) => Decimal(i)
    case Str(s) => s
  }

  /** One equality per field condition, placeholders `2i+1` and `2i+2`. */
  function FieldPredicates(n: nat): (ps: seq<Predicate>)
    ensures |ps| == n
    ensures forall i :: 0 <= i < n ==> ps[i] == FieldEquals(2 * i + 1, 2 * i + 2)
  {
    seq(n, i requires 0 <= i < n => FieldEquals((2 * i + 1) as nat, (2 * i + 2) as nat))
  }

  /** The statement for a given id, ordering and list of field conditions. */
  function Compose(id: Value, order: Value, fields: Hash): (st: Statement)
    ensures st.byId <==> Truthy(id) && Size(fields) == 0
    ensures st.byId ==> st.predicates == [IdEquals(1)] && st.params == [id] && st.order.None?
    ensures !st.byId ==> st.params == Flatten(fields) + (if Truthy(id) then [id] else [])
    ensures !st.byId ==> st.predicates == FieldPredicates(Size(fields)) + (if Truthy(id) then [IdEquals(2 * Size(fields) + 1)] else [])
    ensures !st.byId ==> st.order == if Truthy(order) then Some(Interpolated(order)) else None
  {
    if Truthy(id) && Size(fields) == 0 then
      Statement([IdEquals(1)], [id], None, true)
    else
      var n := Size(fields);
      var orderClause := if Truthy(order) then Some(Interpolated(order)) else None;
      if Truthy(id) then
        Statement(FieldPredicates(n) + [IdEquals(2 * n + 1)], Flatten(fields) + [id], orderClause, false)
      else
        Statement(FieldPredicates(n), Flatten(fields), orderClause, false)
  }

  /** `Model.query`'s translation of its conditions. */
  function Translate(conditions: Hash): (st: Statement)
    ensures var id := Get(conditions, "id");
      st.byId <==> Truthy(id) && Size(FieldConditions(conditions)) == 0
  {
    Compose(Get(conditions, "id"), Get(conditions, "order"), FieldConditions(conditions))
  }

  /** The placeholder numbers the predicates use, in order of appearance. */
  function Placeholders(ps: seq<Predicate>): seq<nat>
    decreases |ps|
  {
    if ps == [] then []
    else
      var last := ps[|ps| - 1];
      Placeholders(ps[..|ps| - 1]) + match last
        case FieldEquals(a, b) => [a, b]
        case IdEquals(a) => [a]
  }

  /** The numbers 1 to n, in order. */
  function OneTo(n: nat): (r: seq<nat>)
    ensures |r| == n && forall i :: 0 <= i < n ==> r[i] == i + 1
  {
    seq(n, i => i + 1)
  }

  lemma {:induction false} FieldPlaceholders(n: nat)
    ensures Placeholders(FieldPredicates(n)) == OneTo(2 * n)
  {
    if n > 0 {
      FieldPlaceholders(n - 1);
      var ps := FieldPredicates(n);
      assert ps[..n - 1] == FieldPredicates(n - 1);
      assert ps[n - 1] == FieldEquals(2 * n - 1, 2 * n);
      assert Placeholders(ps) == OneTo(2 * n - 2) + [2 * n - 1, 2 * n];
      assert OneTo(2 * n - 2) + [2 * n - 1, 2 * n] == OneTo(2 * n);
    }
  }

  lemma PlaceholdersSnocId(ps: seq<Predicate>, a: nat)
    ensures Placeholders(ps + [IdEquals(a)]) == Placeholders(ps) + [a]
  {
    assert (ps + [IdEquals(a)])[..|ps|] == ps;
  }

  /** The placeholders of a statement are exactly `$1 .. $|params|`, each
      used once and in increasing order, so every parameter is referenced and
      none twice. */
  lemma ComposePlaceholders(id: Value, order: Value, fields: Hash)
    ensures var st := Compose(id, order, fields);
      Placeholders(st.predicates) == OneTo(|st.params|)
  {
    var st := Compose(id, order, fields);
    var n := Size(fields);
    if st.byId {
      assert Placeholders([IdEquals(1)]) == Placeholders([]) + [1];
    } else if Truthy(id) {
      FieldPathPlaceholdersWithId(n);
    } else {
      FieldPlaceholders(n);
    }
  }

  /** The field path with an id: the id's placeholder follows the fields'. */
  lemma FieldPathPlaceholdersWithId(n: nat)
    ensures Placeholders(FieldPredicates(n) + [IdEquals(2 * n + 1)]) == OneTo(2 * n + 1)
  {
    FieldPlaceholders(n);
    PlaceholdersSnocId(FieldPredicates(n), 2 * n + 1);
    assert OneTo(2 * n) + [2 * n + 1] == OneTo(2 * n + 1);
  }

  lemma PlaceholdersUsedOnce(conditions: Hash)
    ensures var st := Translate(conditions);
      Placeholders(st.predicates) == OneTo(|st.params|)
  {
    ComposePlaceholders(Get(conditions, "id"), Get(conditions, "order"), FieldConditions(conditions));
  }

  /** What each parameter of a statement carries: on the field path, the key
      and the value of the i-th field condition at `$2i+1` and `$2i+2`, then
      the id if one was given. */
  lemma ComposeParameters(id: Value, order: Value, fields: Hash)
    ensures var st := Compose(id, order, fields);
      var n := Size(fields);
      && (!st.byId ==> |st.params| == 2 * n + (if Truthy(id) then 1 else 0))
      && (!st.byId ==> forall i :: 0 <= i < n ==>
            st.predicates[i] == FieldEquals(2 * i + 1, 2 * i + 2)
            && st.params[2 * i] == Str(fields.keys[i])
            && st.params[2 * i + 1] == Get(fields, fields.keys[i]))
      && (!st.byId && Truthy(id) ==> st.predicates[n] == IdEquals(2 * n + 1) && st.params[2 * n] == id)
  {
    var st := Compose(id, order, fields);
    var n := Size(fields);
    if !st.byId {
      var front := Flatten(fields);
      forall i | 0 <= i < n
        ensures st.params[2 * i] == Str(fields.keys[i]) && st.params[2 * i + 1] == Get(fields, fields.keys[i])
      {
        FlattenAt(fields, i);
        assert st.params[2 * i] == front[2 * i] && st.params[2 * i + 1] == front[2 * i + 1];
      }
    }
  }

  /** The same for a translation, in terms of the conditions: `order` is
      never a parameter, and neither reserved key is ever compared as a
      field. */
  lemma TranslateParameters(conditions: Hash)
    ensures var st := Translate(conditions);
      var id := Get(conditions, "id");
      var fields := FieldConditions(conditions);
      var n := Size(fields);
      && (st.byId ==> st.predicates == [IdEquals(1)] && st.params == [id] && st.order.None?)
      && (!st.byId ==> |st.params| == 2 * n + (if Truthy(id) then 1 else 0))
      && (!st.byId ==> forall i :: 0 <= i < n ==>
            st.predicates[i] == FieldEquals(2 * i + 1, 2 * i + 2)
            && st.params[2 * i] == Str(fields.keys[i])
            && fields.keys[i] != "id" && fields.keys[i] != "order"
            && st.params[2 * i + 1] == Get(conditions, fields.keys[i]))
      && (!st.byId && Truthy(id) ==> st.predicates[n] == IdEquals(2 * n + 1) && st.params[2 * n] == id)
      && (!st.byId ==> (st.order.Some? <==> Truthy(Get(conditions, "order"))))
  {
    var id := Get(conditions, "id");
    var order := Get(conditions, "order");
    var fields := FieldConditions(conditions);
    assert Translate(conditions) == Compose(id, order, fields);
    ComposeParameters(id, order, fields);
    forall i | 0 <= i < Size(fields)
      ensures var k := fields.keys[i];
        k in fields.vals && k != "id" && k != "order" && Get(fields, k) == Get(conditions, k)
    {
      FieldKeyAt(conditions, fields, i);
    }
  }

  /** The i-th field condition is a key of the conditions other than the
      reserved ones, with the same value. */
  lemma FieldKeyAt(conditions: Hash, fields: Hash, i: nat)
    requires fields.vals == conditions.vals - {"id", "order"} && i < Size(fields)
    ensures var k := fields.keys[i];
      k in fields.vals && k != "id" && k != "order" && Get(fields, k) == Get(conditions, k)
  {
    assert fields.keys[i] in KeySet(fields.keys);
  }

  /** One predicate holds of the row `(rowId, data)` under the parameters. */
  predicate Holds(p: Predicate, params: seq<Value>, rowId: nat, data: Hash) {
    match p
    case FieldEquals(a, b) =>
      && 1 <= a <= |params| && 1 <= b <= |params|
      && Text(params[a - 1]).Some? && Text(params[b - 1]).Some?
      && Text(Get(data, Text(params[a - 1]).value)) == Text(params[b - 1])
    case IdEquals(a) =>
      1 <= a <= |params| && IdParam(params[a - 1]) == Ok(Some(rowId))
  }

  /** Every predicate holds of the row: the WHERE clause selects it. */
  predicate AllHold(ps: seq<Predicate>, params: seq<Value>, rowId: nat, data: Hash) {
    forall p :: p in ps ==> Holds(p, params, rowId, data)
  }

  /** Every placeholder has a parameter. */
  predicate Bound(st: Statement) {
    forall p :: p in st.predicates ==> match p
      case FieldEquals(a, b) => 1 <= a <= |st.params| && 1 <= b <= |st.params|
      case IdEquals(a) => 1 <= a <= |st.params|
  }

  /** Some id parameter is not an `int4` literal. */
  predicate BadIdParam(st: Statement) {
    exists p :: p in st.predicates && p.IdEquals? && 1 <= p.param <= |st.params| && IdParam(st.params[p.param - 1]).Err?
  }

  /** The ids of the rows the statement's WHERE clause selects. An empty
      WHERE clause, or one naming a parameter that is not there, does not
      parse; an id parameter that is not an integer fails before any row is
      read. */
  function Select(t: Table, st: Statement): (r: Result<set<nat>>)
    ensures r.Ok? ==> r.value <= t.rows.Keys
    ensures r.Ok? ==> forall id :: id in r.value <==> id in t.rows && AllHold(st.predicates, st.params, id, t.rows[id])
  {
    if |st.predicates| == 0 || !Bound(st) then Err(StoreError(SyntaxError))
    else if BadIdParam(st) then Err(StoreError(InvalidInteger))
    else Ok(set id | id in t.rows && AllHold(st.predicates, st.params, id, t.rows[id]))
  }

  /** The document holds the text of every field condition's value under
      that key; a nil value matches nothing. */
  predicate FieldsHold(fields: Hash, data: Hash) {
    forall k :: k in fields.vals ==> FieldMatches(fields, data, k)
  }

  predicate FieldMatches(fields: Hash, data: Hash, k: Key)
    requires k in fields.vals
  {
    Text(fields.vals[k]).Some? && Text(Get(data, k)) == Text(fields.vals[k])
  }

  /** The meaning of a conditions map, stated directly on the map: the field
      conditions hold of the document, and the row's id is the given id if
      one is truthy. */
  predicate Satisfies(conditions: Hash, rowId: nat, data: Hash) {
    var id := Get(conditions, "id");
    && FieldsHold(FieldConditions(conditions), data)
    && (Truthy(id) ==> IdParam(id) == Ok(Some(rowId)))
  }

  /** The error a conditions map provokes, if any: nothing to put in the
      WHERE clause, or an id that is not an integer. */
  function ConditionsError(conditions: Hash): Option<Error> {
    var id := Get(conditions, "id");
    if !Truthy(id) && Size(FieldConditions(conditions)) == 0 then Some(StoreError(SyntaxError))
    else if Truthy(id) && IdParam(id).Err? then Some(StoreError(InvalidInteger))
    else None
  }

  /** Every placeholder of a statement has its parameter. */
  lemma ComposeBound(id: Value, order: Value, fields: Hash)
    ensures Bound(Compose(id, order, fields))
  {
    var st := Compose(id, order, fields);
    var n := Size(fields);
    forall p | p in st.predicates
      ensures match p
        case FieldEquals(a, b) => 1 <= a <= |st.params| && 1 <= b <= |st.params|
        case IdEquals(a) => 1 <= a <= |st.params|
    {
      var i :| 0 <= i < |st.predicates| && st.predicates[i] == p;
      if !st.byId && i < n {
        assert p == FieldEquals(2 * i + 1, 2 * i + 2);
      }
    }
  }

  /** A statement's only id parameter is the given id, and only when it is
      truthy. */
  lemma ComposeBadId(id: Value, order: Value, fields: Hash)
    ensures BadIdParam(Compose(id, order, fields)) <==> Truthy(id) && IdParam(id).Err?
  {
    var st := Compose(id, order, fields);
    if st.byId {
      assert st.predicates[0] in st.predicates;
    } else {
      FieldPathBadId(Flatten(fields), Size(fields), id, st);
    }
  }

  /** On the field path the only id predicate is the last one, naming the
      last parameter, which is the id. */
  lemma FieldPathBadId(front: seq<Value>, n: nat, id: Value, st: Statement)
    requires |front| == 2 * n
    requires st.params == front + (if Truthy(id) then [id] else [])
    requires st.predicates == FieldPredicates(n) + (if Truthy(id) then [IdEquals(2 * n + 1)] else [])
    ensures BadIdParam(st) <==> Truthy(id) && IdParam(id).Err?
  {
    if Truthy(id) {
      LastIdPredicate(front, n, id, st);
    } else {
      assert st.predicates == FieldPredicates(n);
      NoIdPredicate(n, st);
    }
  }

  lemma NoIdPredicate(n: nat, st: Statement)
    requires st.predicates == FieldPredicates(n)
    ensures !BadIdParam(st)
  {
    forall p | p in st.predicates
      ensures p.FieldEquals?
    {
      var i :| 0 <= i < n && st.predicates[i] == p;
    }
  }

  lemma LastIdPredicate(front: seq<Value>, n: nat, id: Value, st: Statement)
    requires |front| == 2 * n
    requires st.params == front + [id]
    requires st.predicates == FieldPredicates(n) + [IdEquals(2 * n + 1)]
    ensures BadIdParam(st) <==> IdParam(id).Err?
  {
    assert st.params[2 * n] == id;
    assert forall j :: 0 <= j < n ==> st.predicates[j].FieldEquals?;
    forall p | p in st.predicates && p.IdEquals?
      ensures p == IdEquals(2 * n + 1)
    {
      var i :| 0 <= i < n + 1 && st.predicates[i] == p;
    }
    assert st.predicates[n] in st.predicates;
  }

  /** The rows a translated query selects are exactly the rows that satisfy
      the conditions, and it fails exactly when the conditions are unusable. */
  lemma SelectMeansSatisfies(t: Table, conditions: Hash)
    ensures var r := Select(t, Translate(conditions));
      && (ConditionsError(conditions).Some? ==> r == Err(ConditionsError(conditions).value))
      && (ConditionsError(conditions).None? ==> r == Ok(set id | id in t.rows && Satisfies(conditions, id, t.rows[id])))
  {
    var id := Get(conditions, "id");
    var order := Get(conditions, "order");
    var fields := FieldConditions(conditions);
    var st := Translate(conditions);
    ComposeBound(id, order, fields);
    ComposeBadId(id, order, fields);
    assert |st.predicates| == 0 <==> !Truthy(id) && Size(fields) == 0;
    if ConditionsError(conditions).None? {
      SelectedMeant(t, conditions);
    }
  }

  /** The rows whose WHERE clause holds are the rows that satisfy the
      conditions. */
  lemma SelectedMeant(t: Table, conditions: Hash)
    ensures var st := Translate(conditions);
      (set rowId | rowId in t.rows && AllHold(st.predicates, st.params, rowId, t.rows[rowId]))
      == (set rowId | rowId in t.rows && Satisfies(conditions, rowId, t.rows[rowId]))
  {
    var st := Translate(conditions);
    forall rowId | rowId in t.rows
      ensures AllHold(st.predicates, st.params, rowId, t.rows[rowId]) <==> Satisfies(conditions, rowId, t.rows[rowId])
    {
      RowMeaning(conditions, rowId, t.rows[rowId]);
    }
    SameSelection(t, st, conditions);
  }

  lemma SameSelection(t: Table, st: Statement, conditions: Hash)
    requires forall rowId :: rowId in t.rows ==>
      (AllHold(st.predicates, st.params, rowId, t.rows[rowId]) <==> Satisfies(conditions, rowId, t.rows[rowId]))
    ensures (set rowId | rowId in t.rows && AllHold(st.predicates, st.params, rowId, t.rows[rowId]))
      == (set rowId | rowId in t.rows && Satisfies(conditions, rowId, t.rows[rowId]))
  {
  }

  lemma FieldPredicateMeaning(fields: Hash, extra: seq<Value>, rowId: nat, data: Hash, i: nat)
    requires i < Size(fields)
    ensures fields.keys[i] in fields.vals
    ensures Holds(FieldEquals(2 * i + 1, 2 * i + 2), Flatten(fields) + extra, rowId, data) <==> FieldMatches(fields, data, fields.keys[i])
  {
    var k := fields.keys[i];
    assert k in KeySet(fields.keys);
    var flat := Flatten(fields);
    assert flat[2 * i] == Str(k) && flat[2 * i + 1] == Get(fields, k);
    HoldsFieldEquals(flat + extra, i, k, fields.vals[k], rowId, data);
  }

  /** A field predicate whose parameters are a key and a value compares the
      document's text under that key with the value's text. */
  lemma HoldsFieldEquals(params: seq<Value>, i: nat, k: Key, v: Value, rowId: nat, data: Hash)
    requires 2 * i + 1 < |params| && params[2 * i] == Str(k) && params[2 * i + 1] == v
    ensures Holds(FieldEquals(2 * i + 1, 2 * i + 2), params, rowId, data) <==> Text(v).Some? && Text(Get(data, k)) == Text(v)
  {
    assert Text(params[2 * i]) == Some(k);
  }

  lemma FieldPredicatesMeaning(fields: Hash, extra: seq<Value>, rowId: nat, data: Hash)
    ensures AllHold(FieldPredicates(Size(fields)), Flatten(fields) + extra, rowId, data) <==> FieldsHold(fields, data)
  {
    var params := Flatten(fields) + extra;
    var ps := FieldPredicates(Size(fields));
    if FieldsHold(fields, data) {
      forall p | p in ps
        ensures Holds(p, params, rowId, data)
      {
        var i :| 0 <= i < |ps| && ps[i] == p;
        FieldPredicateMeaning(fields, extra, rowId, data, i);
      }
    }
    if AllHold(ps, params, rowId, data) {
      forall k | k in fields.vals
        ensures FieldMatches(fields, data, k)
      {
        assert k in KeySet(fields.keys);
        var i :| 0 <= i < Size(fields) && fields.keys[i] == k;
        FieldPredicateMeaning(fields, extra, rowId, data, i);
        assert ps[i] in ps;
      }
    }
  }

  lemma AllHoldAppend(a: seq<Predicate>, b: seq<Predicate>, params: seq<Value>, rowId: nat, data: Hash)
    ensures AllHold(a + b, params, rowId, data) <==> AllHold(a, params, rowId, data) && AllHold(b, params, rowId, data)
  {
  }

  /** A statement's predicates all hold of a row exactly when its field
      conditions hold of the document and, if an id was given, the row has
      that id. */
  lemma ComposeRowMeaning(id: Value, order: Value, fields: Hash, rowId: nat, data: Hash)
    ensures var st := Compose(id, order, fields);
      AllHold(st.predicates, st.params, rowId, data) <==> (FieldsHold(fields, data) && (Truthy(id) ==> IdParam(id) == Ok(Some(rowId))))
  {
    if Truthy(id) && Size(fields) == 0 {
      ByIdRowMeaning(id, order, fields, rowId, data);
    } else {
      FieldPathRowMeaning(id, order, fields, rowId, data);
    }
  }

  lemma ByIdRowMeaning(id: Value, order: Value, fields: Hash, rowId: nat, data: Hash)
    requires Truthy(id) && Size(fields) == 0
    ensures var st := Compose(id, order, fields);
      AllHold(st.predicates, st.params, rowId, data) <==> (FieldsHold(fields, data) && IdParam(id) == Ok(Some(rowId)))
  {
    var st := Compose(id, order, fields);
    assert fields.keys == [];
    assert st.predicates[0] in st.predicates;
  }

  lemma FieldPathRowMeaning(id: Value, order: Value, fields: Hash, rowId: nat, data: Hash)
    requires !(Truthy(id) && Size(fields) == 0)
    ensures var st := Compose(id, order, fields);
      AllHold(st.predicates, st.params, rowId, data) <==> (FieldsHold(fields, data) && (Truthy(id) ==> IdParam(id) == Ok(Some(rowId))))
  {
    var n := Size(fields);
    var extra := if Truthy(id) then [id] else [];
    var st := Compose(id, order, fields);
    assert st.params == Flatten(fields) + extra;
    assert st.predicates == FieldPredicates(n) + (if Truthy(id) then [IdEquals(2 * n + 1)] else []);
    FieldPredicatesMeaning(fields, extra, rowId, data);
    FieldPathHolds(Flatten(fields), n, FieldsHold(fields, data), id, rowId, data);
  }

  /** The field predicates followed by the id predicate, if any: the fields
      match and the row has the id. */
  lemma FieldPathHolds(front: seq<Value>, n: nat, fieldsHold: bool, id: Value, rowId: nat, data: Hash)
    requires |front| == 2 * n
    requires AllHold(FieldPredicates(n), front + (if Truthy(id) then [id] else []), rowId, data) <==> fieldsHold
    ensures var tail := if Truthy(id) then [IdEquals(2 * n + 1)] else [];
      var params := front + (if Truthy(id) then [id] else []);
      AllHold(FieldPredicates(n) + tail, params, rowId, data) <==> fieldsHold && (Truthy(id) ==> IdParam(id) == Ok(Some(rowId)))
  {
    if Truthy(id) {
      FieldsThenId(front, n, fieldsHold, id, rowId, data);
    } else {
      assert FieldPredicates(n) + [] == FieldPredicates(n);
      assert front + [] == front;
    }
  }

  lemma FieldsThenId(front: seq<Value>, n: nat, fieldsHold: bool, id: Value, rowId: nat, data: Hash)
    requires |front| == 2 * n
    requires AllHold(FieldPredicates(n), front + [id], rowId, data) <==> fieldsHold
    ensures AllHold(FieldPredicates(n) + [IdEquals(2 * n + 1)], front + [id], rowId, data)
      <==> fieldsHold && IdParam(id) == Ok(Some(rowId))
  {
    var ps := FieldPredicates(n);
    var tail := [IdEquals(2 * n + 1)];
    var params := front + [id];
    AllHoldAppend(ps, tail, params, rowId, data);
    LastParamHolds(front, id, 2 * n + 1, rowId, data);
    var whole := AllHold(ps + tail, params, rowId, data);
    var fieldsPart := AllHold(ps, params, rowId, data);
    var idPart := AllHold(tail, params, rowId, data);
    assert whole == (fieldsPart && idPart);
    assert idPart == (IdParam(id) == Ok(Some(rowId)));
  }

  /** An id predicate on the last parameter compares the row id with it. */
  lemma LastParamHolds(front: seq<Value>, id: Value, a: nat, rowId: nat, data: Hash)
    requires a == |front| + 1
    ensures AllHold([IdEquals(a)], front + [id], rowId, data) <==> IdParam(id) == Ok(Some(rowId))
  {
    var params := front + [id];
    assert params[a - 1] == id;
    assert IdEquals(a) in [IdEquals(a)];
  }

  lemma RowMeaning(conditions: Hash, rowId: nat, data: Hash)
    ensures var st := Translate(conditions);
      AllHold(st.predicates, st.params, rowId, data) <==> Satisfies(conditions, rowId, data)
  {
    ComposeRowMeaning(Get(conditions, "id"), Get(conditions, "order"), FieldConditions(conditions), rowId, data);
  }

  /** The number a `COUNT(id)` over the same WHERE clause returns. */
  function Count(t: Table, conditions: Hash): (r: Result<nat>)
    ensures r.Ok? <==> ConditionsError(conditions).None?
    ensures r.Ok? ==> r.value == |set id | id in t.rows && Satisfies(conditions, id, t.rows[id])|
  {
    SelectMeansSatisfies(t, conditions);
    match Select(t, Translate(conditions))
    case Err(e) => Err(e)
    case Ok(ids) => Ok(|ids|)
  }

  /** The rows of the table that satisfy the conditions. */
  function Satisfying(t: Table, conditions: Hash): (ids: set<nat>)
    ensures ids <= t.rows.Keys
  {
    set id | id in t.rows && Satisfies(conditions, id, t.rows[id])
  }

  /** The two ORDER BY texts the relationship proxy sends. */
  const FirstById: string := "id ASC LIMIT 1"
  const LastById: string := "id DESC LIMIT 1"

  lemma OrderingsDiffer()
    ensures FirstById != LastById
  {
    assert FirstById[3] != LastById[3];
  }

  predicate IsMin(ids: set<nat>, m: nat) {
    m in ids && forall x :: x in ids ==> m <= x
  }

  predicate IsMax(ids: set<nat>, m: nat) {
    m in ids && forall x :: x in ids ==> x <= m
  }

  lemma {:induction false} Extremes(ids: set<nat>)
    requires ids != {}
    ensures exists m :: IsMin(ids, m)
    ensures exists m :: IsMax(ids, m)
    decreases ids
  {
    var x :| x in ids;
    if ids != {x} {
      var rest := ids - {x};
      Extremes(rest);
      var lo :| IsMin(rest, lo);
      var hi :| IsMax(rest, hi);
      assert forall y :: y in ids ==> y == x || y in rest;
      assert IsMin(ids, if x < lo then x else lo);
      assert IsMax(ids, if x > hi then x else hi);
    } else {
      assert IsMin(ids, x) && IsMax(ids, x);
    }
  }

  /** The least id of a non-empty set. */
  function Min(ids: set<nat>): (m: nat)
    requires ids != {}
    ensures IsMin(ids, m)
  {
    Extremes(ids);
    var m :| IsMin(ids, m);
    m
  }

  /** The greatest id of a non-empty set. */
  function Max(ids: set<nat>): (m: nat)
    requires ids != {}
    ensures IsMax(ids, m)
  {
    Extremes(ids);
    var m :| IsMax(ids, m);
    m
  }

  /** The rows an ORDER BY clause lets through: "id ASC LIMIT 1" keeps the
      least id and "id DESC LIMIT 1" the greatest. Any other text keeps
      every row; the order the rows come back in is not modelled. */
  function Limit(ids: set<nat>, order: Option<string>): (r: set<nat>)
    ensures r <= ids
    ensures ids == {} ==> r == {}
    ensures ids != {} && order == Some(FirstById) ==> r == {Min(ids)}
    ensures ids != {} && order == Some(LastById) ==> r == {Max(ids)}
    ensures order != Some(FirstById) && order != Some(LastById) ==> r == ids
  {
    OrderingsDiffer();
    if ids == {} then {}
    else if order == Some(FirstById) then {Min(ids)}
    else if order == Some(LastById) then {Max(ids)}
    else ids
  }

  /** The ids of the rows `Model.query` returns for the conditions. */
  function Rows(t: Table, conditions: Hash): (r: Result<set<nat>>)
    ensures r.Ok? <==> ConditionsError(conditions).None?
    ensures r.Err? ==> r.error == ConditionsError(conditions).value
    ensures r.Ok? ==> r.value <= Satisfying(t, conditions)
    ensures r.Ok? && !Truthy(Get(conditions, "order")) ==> r.value == Satisfying(t, conditions)
    ensures r.Ok? && Translate(conditions).byId ==> r.value == Satisfying(t, conditions)
    ensures r.Ok? && !Translate(conditions).byId && Get(conditions, "order") == Str(FirstById) && Satisfying(t, conditions) != {} ==>
      r.value == {Min(Satisfying(t, conditions))}
    ensures r.Ok? && !Translate(conditions).byId && Get(conditions, "order") == Str(LastById) && Satisfying(t, conditions) != {} ==>
      r.value == {Max(Satisfying(t, conditions))}
  {
    var st := Translate(conditions);
    SelectMeansSatisfies(t, conditions);
    match Select(t, st)
    case Err(e) => Err(e)
    case Ok(ids) =>
      assert ids == Satisfying(t, conditions);
      LimitOfTranslated(ids, conditions);
      Ok(Limit(ids, st.order))
  }

  /** What the ordering of a translation lets through. */
  lemma LimitOfTranslated(ids: set<nat>, conditions: Hash)
    ensures var st := Translate(conditions);
      var order := Get(conditions, "order");
      && (!Truthy(order) || st.byId ==> Limit(ids, st.order) == ids)
      && (!st.byId && order == Str(FirstById) && ids != {} ==> Limit(ids, st.order) == {Min(ids)})
      && (!st.byId && order == Str(LastById) && ids != {} ==> Limit(ids, st.order) == {Max(ids)})
  {
    OrderingsDiffer();
    TranslatedOrderClause(conditions);
    ByIdUnordered(conditions);
  }

  lemma ByIdUnordered(conditions: Hash)
    ensures Translate(conditions).byId ==> Translate(conditions).order.None?
  {
    assert Translate(conditions) == Compose(Get(conditions, "id"), Get(conditions, "order"), FieldConditions(conditions));
  }

  /** Without an ordering, the rows are all the rows that satisfy the
      conditions. */
  lemma RowsUnordered(t: Table, conditions: Hash)
    requires ConditionsError(conditions).None? && !Truthy(Get(conditions, "order"))
    ensures Rows(t, conditions) == Ok(Satisfying(t, conditions))
  {
  }

  /** Under either ordering the proxy sends, the rows are the one of least
      (or greatest) id among those that satisfy the conditions. */
  lemma RowsOrdered(t: Table, conditions: Hash, ascending: bool)
    requires ConditionsError(conditions).None? && !Translate(conditions).byId
    requires Get(conditions, "order") == Str(if ascending then FirstById else LastById)
    ensures var sat := Satisfying(t, conditions);
      Rows(t, conditions) == Ok(if sat == {} then {} else if ascending then {Min(sat)} else {Max(sat)})
  {
    var sat := Satisfying(t, conditions);
    if sat == {} {
      assert Rows(t, conditions).value <= sat;
    }
  }

  /** An integer id makes any conditions usable. */
  lemma IdConditionsUsable(conditions: Hash)
    requires Truthy(Get(conditions, "id")) && IdParam(Get(conditions, "id")).Ok?
    ensures ConditionsError(conditions).None?
  {
  }

  /** The text of one predicate. */
  function PredicateText(p: Predicate): string {
    match p
    case FieldEquals(a, b) => "data->>$" + Decimal(a) + " = $" + Decimal(b)
    case IdEquals(a) => "id = $" + Decimal(a)
  }

  /** The predicates joined by " AND ", built from the front. */
  function WhereText(ps: seq<Predicate>): string
    decreases |ps|
  {
    if ps == [] then ""
    else if |ps| == 1 then PredicateText(ps[0])
    else PredicateText(ps[0]) + " AND " + WhereText(ps[1..])
  }

  /** Ruby's `Array#join(sep)`: the parts with `sep` between neighbours,
      built from the back. */
  function Join(parts: seq<string>, sep: string): string
    decreases |parts|
  {
    if parts == [] then ""
    else if |parts| == 1 then parts[0]
    else Join(parts[..|parts| - 1], sep) + sep + parts[|parts| - 1]
  }

  /** A part put in front of a non-empty join is followed by one separator. */
  lemma {:induction false} JoinCons(p: string, parts: seq<string>, sep: string)
    requires parts != []
    ensures Join([p] + parts, sep) == p + sep + Join(parts, sep)
    decreases |parts|
  {
    var all := [p] + parts;
    if |parts| == 1 {
      assert all[..1] == [p];
    } else {
      var init := parts[..|parts| - 1];
      var last := parts[|parts| - 1];
      JoinCons(p, init, sep);
      assert all[..|all| - 1] == [p] + init && all[|all| - 1] == last;
      assert Join(all, sep) == (p + sep + Join(init, sep)) + sep + last;
      assert Join(parts, sep) == Join(init, sep) + sep + last;
      ConcatAssociative(p + sep, Join(init, sep), sep + last);
    }
  }

  lemma ConcatAssociative(a: string, b: string, c: string)
    ensures (a + b) + c == a + (b + c)
  {
  }

  /** The texts of the predicates, one per predicate. */
  function Texts(ps: seq<Predicate>): (r: seq<string>)
    ensures |r| == |ps|
  {
    seq(|ps|, i requires 0 <= i < |ps| => PredicateText(ps[i]))
  }

  /** The WHERE text is the predicates' texts joined by " AND ". */
  lemma {:induction false} WhereTextJoins(ps: seq<Predicate>)
    ensures WhereText(ps) == Join(Texts(ps), " AND ")
    decreases |ps|
  {
    if |ps| > 1 {
      WhereTextJoins(ps[1..]);
      TextsAppend([ps[0]], ps[1..]);
      assert [ps[0]] + ps[1..] == ps;
      assert Texts([ps[0]]) == [PredicateText(ps[0])];
      JoinCons(PredicateText(ps[0]), Texts(ps[1..]), " AND ");
    } else if |ps| == 1 {
      assert Texts(ps) == [PredicateText(ps[0])];
    }
  }

  /** `base_query(fields)`: the SELECT of the fields from the class's table. */
  function BaseQuery(fields: string, className: string): string {
    "SELECT " + fields + " FROM \"" + Naming.TableName(className) + "\""
  }

  /** The text `"ORDER BY #{order}" if order` interpolates. */
  function OrderText(order: Option<string>): string {
    match order
    case None => ""
    case Some(o) => "ORDER BY " + o
  }

  /** The statement text `Model.query` sends for a class and a field list:
      the primary-key path is `WHERE id = $1`; otherwise the predicates'
      texts joined by " AND ", then the ordering, if any. */
  function Sql(fields: string, className: string, st: Statement): (sql: string)
    ensures st.byId ==> sql == BaseQuery(fields, className) + " WHERE id = $1"
    ensures !st.byId ==> sql == BaseQuery(fields, className) + " WHERE " + Join(Texts(st.predicates), " AND ") + " " + OrderText(st.order)
  {
    if st.byId then BaseQuery(fields, className) + " WHERE id = $1"
    else
      WhereTextJoins(st.predicates);
      BaseQuery(fields, className) + " WHERE " + WhereText(st.predicates) + " " + OrderText(st.order)
  }

  /** The text of a translated statement off the primary-key path, in terms
      of its conditions: field `i` is compared as `data->>$2i+1 = $2i+2`, a
      truthy id follows as `id = $2n+1`, and the order is interpolated. */
  lemma SqlText(fields: string, className: string, conditions: Hash)
    requires !Translate(conditions).byId
    ensures var n := Size(FieldConditions(conditions));
      var id := Get(conditions, "id");
      var order := Get(conditions, "order");
      Sql(fields, className, Translate(conditions))
        == BaseQuery(fields, className) + " WHERE "
           + Join(FieldTexts(n) + (if Truthy(id) then ["id = $" + Decimal(2 * n + 1)] else []), " AND ")
           + " " + (if Truthy(order) then "ORDER BY " + Interpolated(order) else "")
  {
    var n := Size(FieldConditions(conditions));
    var id := Get(conditions, "id");
    var order := Get(conditions, "order");
    var st := Translate(conditions);
    TranslatedTexts(conditions);
    TranslatedOrder(conditions);
    assert Sql(fields, className, st)
      == BaseQuery(fields, className) + " WHERE " + Join(Texts(st.predicates), " AND ") + " " + OrderText(st.order);
  }

  /** The predicates' texts off the primary-key path. */
  lemma TranslatedTexts(conditions: Hash)
    requires !Translate(conditions).byId
    ensures var n := Size(FieldConditions(conditions));
      Texts(Translate(conditions).predicates)
        == FieldTexts(n) + (if Truthy(Get(conditions, "id")) then ["id = $" + Decimal(2 * n + 1)] else [])
  {
    ComposeTexts(Get(conditions, "id"), Get(conditions, "order"), FieldConditions(conditions));
  }

  lemma ComposeTexts(id: Value, order: Value, fields: Hash)
    requires !Compose(id, order, fields).byId
    ensures var n := Size(fields);
      Texts(Compose(id, order, fields).predicates)
        == FieldTexts(n) + (if Truthy(id) then ["id = $" + Decimal(2 * n + 1)] else [])
  {
    var n := Size(fields);
    var ps := Compose(id, order, fields).predicates;
    if Truthy(id) {
      assert ps == FieldPredicates(n) + [IdEquals(2 * n + 1)];
      FieldAndIdTexts(n);
    } else {
      assert ps == FieldPredicates(n);
      FieldPredicateTexts(n);
    }
  }

  lemma FieldAndIdTexts(n: nat)
    ensures Texts(FieldPredicates(n) + [IdEquals(2 * n + 1)]) == FieldTexts(n) + ["id = $" + Decimal(2 * n + 1)]
  {
    TextsAppend(FieldPredicates(n), [IdEquals(2 * n + 1)]);
    FieldPredicateTexts(n);
    IdText(2 * n + 1);
  }

  /** The ordering text off the primary-key path. */
  lemma TranslatedOrder(conditions: Hash)
    requires !Translate(conditions).byId
    ensures var order := Get(conditions, "order");
      OrderText(Translate(conditions).order) == if Truthy(order) then "ORDER BY " + Interpolated(order) else ""
  {
    TranslatedOrderClause(conditions);
  }

  lemma TranslatedOrderClause(conditions: Hash)
    ensures var order := Get(conditions, "order");
      !Translate(conditions).byId ==> Translate(conditions).order == if Truthy(order) then Some(Interpolated(order)) else None
  {
    assert Translate(conditions) == Compose(Get(conditions, "id"), Get(conditions, "order"), FieldConditions(conditions));
  }

  lemma IdText(a: nat)
    ensures Texts([IdEquals(a)]) == ["id = $" + Decimal(a)]
  {
  }

  lemma TextsAppend(ps: seq<Predicate>, qs: seq<Predicate>)
    ensures Texts(ps + qs) == Texts(ps) + Texts(qs)
  {
  }

  lemma FieldPredicateTexts(n: nat)
    ensures Texts(FieldPredicates(n)) == FieldTexts(n)
  {
  }

  /** `count.times.map { |i| "data->>$#{2 * i + 1} = $#{2 * i + 2}" }`. */
  function FieldTexts(n: nat): (r: seq<string>)
    ensures |r| == n
    ensures forall i :: 0 <= i < n ==> r[i] == "data->>$" + Decimal(2 * i + 1) + " = $" + Decimal(2 * i + 2)
  {
    seq(n, i requires 0 <= i < n => "data->>$" + Decimal(2 * i + 1) + " = $" + Decimal(2 * i + 2))
  }

  lemma SqlExamples()
    ensures WhereText([FieldEquals(1, 2), IdEquals(3)]) == "data->>$1 = $2 AND id = $3"
  {
    assert Decimal(1) == "1" && Decimal(2) == "2" && Decimal(3) == "3";
  }
}
