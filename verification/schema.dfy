/**
  The per-class declarations of a model (`attribute`, `index`, `unique`,
  `reference`, `collection`) as a static list folded into a registry, and
  the accessors those declarations define.

  `attribute`, `index`, `unique` and `reference` append a name to a list
  unless it is already there. `attribute` and `reference` also define
  methods; a later definition of a method replaces an earlier one, which the
  model keeps as a map from method name to what the method does.
 */
module Schema {
  import opened Errors
  import opened Values
  import opened OrderedHash

  /** The conversion an attribute's getter applies to the stored value: the
      default `->(x) { x }`, or `->(x) { x.to_i }`. */
  datatype Caster = Identity | ToInteger

  function Cast(c: Caster, raw: Value): (r: Result<Value>)
    ensures c.Identity? ==> r == Ok(raw)
    ensures c.ToInteger? ==> (r.Ok? <==> !raw.Bool?)
    ensures c.ToInteger? && r.Ok? ==> r.value.Int? && ToI(raw) == Ok(r.value.i)
  {
    match c
    case Identity => Ok(raw)
    case ToInteger =>
      match ToI(raw)
      case Ok(n) => Ok(Int(n))
      case Err(e) => Err(e)
  }

  /** What a reader method returns: the cast value under a key, the parent
      record a reference names, or a relationship proxy. */
  datatype Reader =
    | ValueReader(key: Key, caster: Caster)
    | ParentReader(key: Key, parentClass: string)
    | CollectionReader(childClass: string)

  datatype Declaration =
    | Attribute(name: Key, caster: Caster)
    | Index(name: Key)
    | Unique(name: Key)
    | Reference(name: Key, parentClass: string)
    | Collection(name: Key, childClass: string)

  /** The registry of one model class. `writers` are the names `n` that have
      a setter `n=`; the setter stores under the key `n`. */
  datatype Schema = Schema(
    className: string,
    attributes: seq<Key>,
    indices: seq<Key>,
    uniques: seq<Key>,
    readers: map<Key, Reader>,
    writers: set<Key>)

  function Undeclared(className: string): Schema {
    Schema(className, [], [], [], map[], {})
  }

  /** `list << name unless list.include?(name)`. */
  function AppendIfAbsent(xs: seq<Key>, x: Key): (r: seq<Key>)
    ensures KeySet(r) == KeySet(xs) + {x}
    ensures |xs| <= |r| && r[..|xs|] == xs
    ensures Distinct(xs) ==> Distinct(r)
  {
    if x in xs then xs
    else
      assert KeySet(xs + [x]) == KeySet(xs) + {x};
      assert (xs + [x])[..|xs|] == xs;
      DistinctSnoc(xs, x);
      xs + [x]
  }

  lemma DistinctSnoc(xs: seq<Key>, x: Key)
    ensures Distinct(xs) && x !in xs ==> Distinct(xs + [x])
  {
    if Distinct(xs) && x !in xs {
      var t := xs + [x];
      forall i, j | 0 <= i < j < |t|
        ensures t[i] != t[j]
      {
        assert t[i] == xs[i];
        if j < |xs| {
          assert t[j] == xs[j];
        }
      }
    }
  }

  /** The key the setter and reader of a reference `name` use. */
  function ReferenceKey(name: Key): Key {
    name + "_id"
  }

  /** The effect of one declaration on the registry. */
  function Declare(s: Schema, d: Declaration): Schema {
    match d
    case Attribute(n, c) =>
      s.(attributes := AppendIfAbsent(s.attributes, n),
         readers := s.readers[n := ValueReader(n, c)],
         writers := s.writers + {n})
    case Index(n) =>
      s.(indices := AppendIfAbsent(s.indices, n))
    case Unique(n) =>
      s.(uniques := AppendIfAbsent(s.uniques, n))
    case Reference(n, parent) =>
      var k := ReferenceKey(n);
      s.(attributes := AppendIfAbsent(s.attributes, n),
         readers := s.readers[k := ValueReader(k, Identity)][n := ParentReader(k, parent)],
         writers := s.writers + {k})
    case Collection(n, child) =>
      s.(readers := s.readers[n := CollectionReader(child)])
  }

  /** The registry a class body builds, declarations taken in order. */
  function Declared(className: string, decls: seq<Declaration>): Schema
    decreases |decls|
  {
    if decls == [] then Undeclared(className)
    else Declare(Declared(className, decls[..|decls| - 1]), decls[|decls| - 1])
  }

  /** Declaring anything a second time changes nothing. */
  lemma DeclareIdempotent(s: Schema, d: Declaration)
    ensures Declare(Declare(s, d), d) == Declare(s, d)
  {
    match d
    case Reference(n, parent) =>
      var k := ReferenceKey(n);
      var m := s.readers[k := ValueReader(k, Identity)][n := ParentReader(k, parent)];
      assert m[k := ValueReader(k, Identity)][n := ParentReader(k, parent)] == m;
    case _ =>
  }

  /** The three name lists of a registry. */
  datatype ListKind = AttributeList | IndexList | UniqueList

  function ListOf(s: Schema, kind: ListKind): seq<Key> {
    match kind
    case AttributeList => s.attributes
    case IndexList => s.indices
    case UniqueList => s.uniques
  }

  /** The name a declaration adds to a list, if any. */
  function ListedName(d: Declaration, kind: ListKind): seq<Key> {
    match kind
    case AttributeList => if d.Attribute? || d.Reference? then [d.name] else []
    case IndexList => if d.Index? then [d.name] else []
    case UniqueList => if d.Unique? then [d.name] else []
  }

  /** Every name the declarations add to a list, repetitions included. */
  function ListedNames(decls: seq<Declaration>, kind: ListKind): seq<Key>
    decreases |decls|
  {
    if decls == [] then []
    else ListedNames(decls[..|decls| - 1], kind) + ListedName(decls[|decls| - 1], kind)
  }

  /** The position of the first occurrence of `x`. */
  function FirstIndex(xs: seq<Key>, x: Key): (i: nat)
    requires x in xs
    ensures i < |xs| && xs[i] == x && x !in xs[..i]
  {
    if xs[0] == x then 0 else 1 + FirstIndex(xs[1..], x)
  }

  /** `r` holds each name of `xs` exactly once, ordered by first occurrence. */
  predicate FirstOccurrenceOrder(r: seq<Key>, xs: seq<Key>) {
    && Distinct(r)
    && KeySet(r) == KeySet(xs)
    && forall i, j :: 0 <= i < j < |r| ==> r[i] in xs && r[j] in xs && FirstIndex(xs, r[i]) < FirstIndex(xs, r[j])
  }

  lemma FirstIndexSnoc(xs: seq<Key>, x: Key, y: Key)
    requires y in xs
    ensures FirstIndex(xs + [x], y) == FirstIndex(xs, y)
  {
    var i := FirstIndex(xs, y);
    assert (xs + [x])[..i] == xs[..i];
    FirstIndexUnique(xs + [x], y, i);
  }

  lemma {:induction false} FirstIndexUnique(xs: seq<Key>, y: Key, k: nat)
    requires k < |xs| && xs[k] == y && y !in xs[..k]
    ensures FirstIndex(xs, y) == k
  {
    if xs[0] != y {
      assert xs[1..][..k - 1] == xs[..k][1..];
      FirstIndexUnique(xs[1..], y, k - 1);
    }
  }

  lemma {:induction false} AppendIfAbsentKeepsOrder(r: seq<Key>, xs: seq<Key>, x: Key)
    requires FirstOccurrenceOrder(r, xs)
    ensures FirstOccurrenceOrder(AppendIfAbsent(r, x), xs + [x])
  {
    var r' := AppendIfAbsent(r, x);
    var xs' := xs + [x];
    assert KeySet(xs') == KeySet(xs) + {x};
    forall y | y in xs
      ensures FirstIndex(xs', y) == FirstIndex(xs, y)
    {
      FirstIndexSnoc(xs, x, y);
    }
    if x !in r {
      assert x !in xs;
      assert FirstIndex(xs', x) == |xs|;
      forall i, j | 0 <= i < j < |r'|
        ensures r'[i] in xs' && r'[j] in xs' && FirstIndex(xs', r'[i]) < FirstIndex(xs', r'[j])
      {
        assert r'[i] == r[i] && r[i] in KeySet(r);
        if j < |r| {
          assert r'[j] == r[j];
        } else {
          assert r'[j] == x;
        }
      }
    }
  }

  /** Each list of a registry holds every declared name once, in the order of
      its first declaration, however often a name is declared. */
  lemma {:induction false} DeclaredListsFirstOccurrence(className: string, decls: seq<Declaration>, kind: ListKind)
    ensures FirstOccurrenceOrder(ListOf(Declared(className, decls), kind), ListedNames(decls, kind))
    decreases |decls|
  {
    if decls != [] {
      var init := decls[..|decls| - 1];
      var d := decls[|decls| - 1];
      DeclaredListsFirstOccurrence(className, init, kind);
      var before := ListOf(Declared(className, init), kind);
      var names := ListedNames(init, kind);
      if ListedName(d, kind) == [] {
        assert names + [] == names;
      } else {
        AppendIfAbsentKeepsOrder(before, names, d.name);
      }
    }
  }

  /** Declaring a name twice leaves it in the list exactly once. */
  lemma DeclaredTwiceListedOnce(className: string, decls: seq<Declaration>, kind: ListKind, n: Key)
    requires n in ListedNames(decls, kind)
    ensures n in ListOf(Declared(className, decls), kind)
    ensures forall i, j :: 0 <= i < j < |ListOf(Declared(className, decls), kind)| ==>
      ListOf(Declared(className, decls), kind)[i] != ListOf(Declared(className, decls), kind)[j]
  {
    DeclaredListsFirstOccurrence(className, decls, kind);
    assert n in KeySet(ListedNames(decls, kind));
  }

  /** A reader call of a value reader: the caster applied to what the map
      holds under the reader's key (nil when absent). `Err` for an undefined
      method. */
  function Read(s: Schema, attrs: Hash, name: Key): (r: Result<Value>)
    requires name in s.readers ==> s.readers[name].ValueReader?
    ensures name !in s.readers ==> r == Err(NoMethodError(name))
    ensures name in s.readers ==>
      var stored := Get(attrs, s.readers[name].key);
      && (r.Err? <==> s.readers[name].caster.ToInteger? && stored.Bool?)
      && (s.readers[name].caster.Identity? ==> r == Ok(stored))
      && (s.readers[name].caster.ToInteger? && r.Ok? ==> r.value.Int? && ToI(stored) == Ok(r.value.i))
  {
    if name !in s.readers then Err(NoMethodError(name))
    else Cast(s.readers[name].caster, Get(attrs, s.readers[name].key))
  }

  /** A setter call `name=`: stores the raw value under `name`. */
  function Write(s: Schema, attrs: Hash, name: Key, v: Value): (r: Result<Hash>)
    ensures r.Ok? <==> name in s.writers
    ensures r.Err? ==> r.error == NoMethodError(name + "=")
    ensures r.Ok? ==> Get(r.value, name) == v
    ensures r.Ok? ==> forall k :: k != name ==> Get(r.value, k) == Get(attrs, k)
    ensures r.Ok? ==> Size(attrs) <= Size(r.value) && r.value.keys[..Size(attrs)] == attrs.keys
  {
    if name in s.writers then Ok(Put(attrs, name, v)) else Err(NoMethodError(name + "="))
  }

  /** The outcome of `update`: the map after the setters that ran, and the
      name whose setter was missing, if one stopped it. */
  datatype Assigned = Assigned(attributes: Hash, missing: Option<Key>) {
    function Failure(): Option<Error> {
      match missing
      case None => None
      case Some(k) => Some(NoMethodError(k + "="))
    }
  }

  /** Position `i` of `ks` holds the first name without a setter. */
  predicate FirstWithoutSetter(s: Schema, ks: seq<Key>, i: int) {
    0 <= i < |ks| && ks[i] !in s.writers && forall j :: 0 <= j < i ==> ks[j] in s.writers
  }

  /** The pairs of `m` under the names of `ks`. */
  function PairsOf(ks: seq<Key>, m: map<Key, Value>): map<Key, Value> {
    map k | k in KeySet(ks) && k in m :: m[k]
  }

  function AssignKeys(s: Schema, attrs: Hash, ks: seq<Key>, m: map<Key, Value>): (r: Assigned)
    requires KeySet(ks) <= m.Keys
    ensures r.missing.None? <==> KeySet(ks) <= s.writers
    ensures r.missing.Some? ==> r.missing.value in ks && r.missing.value !in s.writers
    ensures r.missing.Some? ==> exists i :: (FirstWithoutSetter(s, ks, i) && r.missing.value == ks[i]
      && r.attributes.vals == attrs.vals + PairsOf(ks[..i], m))
    ensures r.missing.None? ==> r.attributes.vals.Keys == attrs.vals.Keys + KeySet(ks)
    ensures r.missing.None? ==> forall k :: k in r.attributes.vals ==> r.attributes.vals[k] == if k in ks then m[k] else attrs.vals[k]
    decreases |ks|
  {
    if ks == [] then Assigned(attrs, None)
    else
      assert KeySet(ks) == {ks[0]} + KeySet(ks[1..]);
      assert forall k :: k in ks <==> k == ks[0] || k in ks[1..];
      if ks[0] in s.writers then
        var r := AssignKeys(s, Put(attrs, ks[0], m[ks[0]]), ks[1..], m);
        if r.missing.Some? then
          StoppedLater(s, attrs.vals, ks, m, r.missing.value, r.attributes.vals);
          r
        else r
      else
        StoppedFirst(s, attrs.vals, ks, m);
        Assigned(attrs, Some(ks[0]))
  }

  /** A stop at the first name has written nothing. */
  lemma StoppedFirst(s: Schema, a: map<Key, Value>, ks: seq<Key>, m: map<Key, Value>)
    requires |ks| > 0 && ks[0] !in s.writers
    ensures FirstWithoutSetter(s, ks, 0) && a == a + PairsOf(ks[..0], m)
  {
    assert PairsOf(ks[..0], m) == map[];
  }

  /** A stop in the rest of the names, after the first was written, is a stop
      in the whole list one position later. */
  lemma StoppedLater(s: Schema, a: map<Key, Value>, ks: seq<Key>, m: map<Key, Value>, k: Key, r: map<Key, Value>)
    requires |ks| > 0 && ks[0] in s.writers && KeySet(ks) <= m.Keys
    requires exists i :: (FirstWithoutSetter(s, ks[1..], i) && k == ks[1..][i]
      && r == a[ks[0] := m[ks[0]]] + PairsOf(ks[1..][..i], m))
    ensures exists i :: FirstWithoutSetter(s, ks, i) && k == ks[i] && r == a + PairsOf(ks[..i], m)
  {
    var i :| FirstWithoutSetter(s, ks[1..], i) && k == ks[1..][i]
      && r == a[ks[0] := m[ks[0]]] + PairsOf(ks[1..][..i], m);
    assert FirstWithoutSetter(s, ks, i + 1) by {
      forall j | 0 <= j < i + 1
        ensures ks[j] in s.writers
      {
        if j > 0 {
          assert ks[j] == ks[1..][j - 1];
        }
      }
    }
    assert ks[..i + 1] == [ks[0]] + ks[1..][..i];
    assert ks[0] in m;
    PairsCons(ks[0], ks[1..][..i], m);
    UpdateUnion(a, PairsOf(ks[1..][..i], m), ks[0], m[ks[0]]);
  }

  lemma PairsCons(k: Key, ks: seq<Key>, m: map<Key, Value>)
    requires k in m
    ensures PairsOf([k] + ks, m) == PairsOf(ks, m)[k := m[k]]
  {
    assert KeySet([k] + ks) == {k} + KeySet(ks);
  }

  /** Writing `k` before a union agrees with writing it into the right-hand
      side, when that side already holds the same value for `k`. */
  lemma UpdateUnion<K, V>(a: map<K, V>, p: map<K, V>, k: K, v: V)
    requires k in p ==> p[k] == v
    ensures a[k := v] + p == a + p[k := v]
  {
  }

  /** `Model#update`: calls the setter of every pair in order, stopping at the
      first name without one. When every name has a setter the result is the
      old map with the new pairs written over it. */
  function Assign(s: Schema, attrs: Hash, updates: Hash): (r: Assigned)
    ensures r.missing.None? <==> updates.vals.Keys <= s.writers
    ensures r.missing.Some? ==> r.missing.value in updates.vals && r.missing.value !in s.writers
    ensures r.missing.Some? ==> exists i :: (FirstWithoutSetter(s, updates.keys, i) && r.missing.value == updates.keys[i]
      && r.attributes.vals == attrs.vals + PairsOf(updates.keys[..i], updates.vals))
    ensures r.missing.None? ==> r.attributes.vals == attrs.vals + updates.vals
  {
    var r := AssignKeys(s, attrs, updates.keys, updates.vals);
    assert forall k :: k in updates.keys <==> k in updates.vals;
    if r.missing.None? then
      WrittenOver(attrs.vals, updates.keys, updates.vals, r.attributes.vals);
      r
    else r
  }

  /** A map holding the keys of `a` and `ks`, with the value from `m` for
      the keys of `ks` and from `a` for the rest, is `a` overridden by `m`. */
  lemma WrittenOver(a: map<Key, Value>, ks: seq<Key>, m: map<Key, Value>, r: map<Key, Value>)
    requires forall k :: k in ks <==> k in m
    requires r.Keys == a.Keys + KeySet(ks)
    requires forall k :: k in r ==> r[k] == if k in ks then m[k] else a[k]
    ensures r == a + m
  {
  }

  /** The accessor rule of `attribute`: the setter stores the raw value, the
      getter returns the caster applied to it. With the default caster, a
      read after a write returns the value written. */
  lemma AttributeGetAfterSet(s: Schema, n: Key, c: Caster, attrs: Hash, v: Value)
    ensures var s' := Declare(s, Attribute(n, c));
      && Write(s', attrs, n, v).Ok?
      && Read(s', Write(s', attrs, n, v).value, n) == Cast(c, v)
      && (c.Identity? ==> Read(s', Write(s', attrs, n, v).value, n) == Ok(v))
  {
  }

  /** A getter declared with `to_i` reads the integer back whether the
      stored value is that integer or its decimal text. */
  lemma ToIntegerCasterReadsBack(s: Schema, n: Key, attrs: Hash, i: int)
    ensures var s' := Declare(s, Attribute(n, ToInteger));
      && Read(s', Write(s', attrs, n, Int(i)).value, n) == Ok(Int(i))
      && Read(s', Write(s', attrs, n, Str(Decimal(i))).value, n) == Ok(Int(i))
  {
    var s' := Declare(s, Attribute(n, ToInteger));
    ReadWritten(s', attrs, n, Int(i));
    ReadWritten(s', attrs, n, Str(Decimal(i)));
    DecimalCastsBack(i);
  }

  /** A getter over the key its setter writes casts what was written. */
  lemma ReadWritten(s: Schema, attrs: Hash, n: Key, v: Value)
    requires n in s.writers && n in s.readers && s.readers[n].ValueReader? && s.readers[n].key == n
    ensures Write(s, attrs, n, v).Ok?
    ensures Read(s, Write(s, attrs, n, v).value, n) == Cast(s.readers[n].caster, v)
  {
  }

  lemma DecimalCastsBack(i: int)
    ensures Cast(ToInteger, Str(Decimal(i))) == Ok(Int(i))
  {
    DecimalTextToI(i);
  }

  /** A reference `name` stores its foreign key under `name_id`: the raw
      reader returns what the setter stored, and `name` reads the parent
      through that key. */
  lemma ReferenceAccessors(s: Schema, n: Key, parent: string, attrs: Hash, v: Value)
    requires n != ReferenceKey(n)
    ensures var s' := Declare(s, Reference(n, parent));
      && n in s'.attributes
      && Write(s', attrs, ReferenceKey(n), v).Ok?
      && Read(s', Write(s', attrs, ReferenceKey(n), v).value, ReferenceKey(n)) == Ok(v)
      && s'.readers[n] == ParentReader(ReferenceKey(n), parent)
  {
  }
}
