/**
  `Spirit::Model`, the in-memory stand-in with the same surface as a Shoden
  model: `attribute` defines a raw getter and setter, `new` and `create` run
  the setters over the given map and store nothing, and every record reports
  the id 1.

  A class is the `Schema` registry of the Shoden model, holding only what
  `attribute` puts there: no lists, no casters, no relations.
 */
module Spirit {
  import opened Errors
  import opened Values
  import opened OrderedHash
  import opened Schema

  datatype Model = Model(attributes: Hash)

  /** Every method of a Spirit class is a pair of raw accessors. */
  predicate SpiritClass(s: Schema) {
    && s.readers.Keys == s.writers
    && (forall n :: n in s.readers ==> s.readers[n] == ValueReader(n, Identity))
    && s.attributes == [] && s.indices == [] && s.uniques == []
  }

  /** `Spirit::Model.attribute(name)`: defines `name` and `name=`. */
  function Attribute(s: Schema, name: Key): (r: Schema)
    ensures SpiritClass(s) ==> SpiritClass(r)
    ensures r.writers == s.writers + {name}
    ensures name in r.readers && r.readers[name] == ValueReader(name, Identity)
    ensures forall n :: n in s.readers && n != name ==> n in r.readers && r.readers[n] == s.readers[n]
  {
    s.(readers := s.readers[name := ValueReader(name, Identity)], writers := s.writers + {name})
  }

  /** A class body that declares the names in order. */
  function Declared(className: string, names: seq<Key>): (s: Schema)
    ensures SpiritClass(s)
    ensures s.writers == KeySet(names)
    decreases |names|
  {
    if names == [] then Undeclared(className)
    else
      var init := names[..|names| - 1];
      var last := names[|names| - 1];
      assert names == init + [last];
      assert KeySet(names) == KeySet(init) + {last};
      Attribute(Declared(className, init), last)
  }

  /** `Spirit::Model#id`: the same id for every record, stored or not. */
  function Id(m: Model): (r: nat)
    ensures r == 1
  {
    1
  }

  /** `Spirit::Model#update_attributes`: the setter of every pair in order.
      The record keeps the pairs written before a name without a setter
      stopped the loop; that name is the error. */
  function UpdateAttributes(s: Schema, m: Model, attrs: Hash): (r: (Model, Option<Error>))
    ensures r.1.None? <==> attrs.vals.Keys <= s.writers
    ensures r.1.Some? ==> exists k :: k in attrs.vals && k !in s.writers && r.1.value == NoMethodError(k + "=")
    ensures r.1.Some? ==> exists i :: (FirstWithoutSetter(s, attrs.keys, i) && r.1.value == NoMethodError(attrs.keys[i] + "=")
      && r.0.attributes.vals == m.attributes.vals + PairsOf(attrs.keys[..i], attrs.vals))
    ensures r.1.None? ==> r.0.attributes.vals == m.attributes.vals + attrs.vals
  {
    var a := Assign(s, m.attributes, attrs);
    (Model(a.attributes), a.Failure())
  }

  /** `Spirit::Model.new(attrs)`: `update_attributes` on an empty map. Unlike
      a Shoden model, `id` is an ordinary key: it needs a setter like any
      other. */
  function New(s: Schema, attrs: Hash): (r: Result<Model>)
    ensures r.Ok? <==> attrs.vals.Keys <= s.writers
    ensures r.Err? ==> exists k :: k in attrs.vals && k !in s.writers && r.error == NoMethodError(k + "=")
    ensures r.Err? ==> exists i :: FirstWithoutSetter(s, attrs.keys, i) && r.error == NoMethodError(attrs.keys[i] + "=")
    ensures r.Ok? ==> r.value.attributes.vals == attrs.vals
  {
    var u := UpdateAttributes(s, Model(Empty), attrs);
    EmptyOverridden(attrs.vals);
    StoppedAtFirst(s, Model(Empty), attrs);
    match u.1
    case Some(e) => Err(e)
    case None => Ok(u.0)
  }

  /** The name an update stops at is the first without a setter. */
  lemma StoppedAtFirst(s: Schema, m: Model, attrs: Hash)
    ensures var u := UpdateAttributes(s, m, attrs);
      u.1.Some? ==> exists i :: FirstWithoutSetter(s, attrs.keys, i) && u.1.value == NoMethodError(attrs.keys[i] + "=")
  {
    var u := UpdateAttributes(s, m, attrs);
    if u.1.Some? {
      var i :| FirstWithoutSetter(s, attrs.keys, i) && u.1.value == NoMethodError(attrs.keys[i] + "=")
        && u.0.attributes.vals == m.attributes.vals + PairsOf(attrs.keys[..i], attrs.vals);
    }
  }

  /** `Spirit::Model.create(attrs)`: `new(attrs)`; nothing is stored. */
  function Create(s: Schema, attrs: Hash): (r: Result<Model>)
    ensures r.Ok? <==> attrs.vals.Keys <= s.writers
    ensures r.Err? ==> exists k :: k in attrs.vals && k !in s.writers && r.error == NoMethodError(k + "=")
    ensures r.Ok? ==> r.value.attributes.vals == attrs.vals
  {
    New(s, attrs)
  }

  /** The getter of a declared name returns what `new` was given under it,
      and nil for a name it was not given. */
  lemma CreatedReadsBack(className: string, names: seq<Key>, attrs: Hash, n: Key)
    requires attrs.vals.Keys <= KeySet(names) && n in names
    ensures var s := Declared(className, names);
      && Create(s, attrs).Ok?
      && Read(s, Create(s, attrs).value.attributes, n) == Ok(Get(attrs, n))
      && (n !in attrs.vals ==> Read(s, Create(s, attrs).value.attributes, n) == Ok(Nil))
  {
    var s := Declared(className, names);
    assert n in KeySet(names);
  }

  /** Sending `name` to a record. A getter `attribute` defined in the class
      overrides the inherited methods; otherwise `id` is the inherited
      `Spirit::Model#id`, and any other name is a missing method. */
  function Call(s: Schema, m: Model, name: Key): (r: Result<Value>)
    requires SpiritClass(s)
    ensures name in s.readers ==> r == Ok(Get(m.attributes, name))
    ensures name !in s.readers ==> (r.Ok? <==> name == "id")
    ensures name !in s.readers && name == "id" ==> r == Ok(Int(Id(m)))
    ensures name !in s.readers && name != "id" ==> r == Err(NoMethodError(name))
  {
    if name in s.readers then Read(s, m.attributes, name)
    else if name == "id" then Ok(Int(Id(m)))
    else Err(NoMethodError(name))
  }

  /** A name nobody declared is a missing method, whatever was set, except
      `id`, which every record answers with 1. */
  lemma UndeclaredRead(className: string, names: seq<Key>, m: Model, n: Key)
    requires n !in names
    ensures Read(Declared(className, names), m.attributes, n) == Err(NoMethodError(n))
    ensures Call(Declared(className, names), m, n) == if n == "id" then Ok(Int(1)) else Err(NoMethodError(n))
  {
    assert n !in KeySet(names);
  }

  /** Declaring `attribute :id` overrides the inherited `id`: the record then
      answers with what it holds under `id`. */
  lemma DeclaredIdOverrides(className: string, names: seq<Key>, m: Model)
    requires "id" in names
    ensures Call(Declared(className, names), m, "id") == Ok(Get(m.attributes, "id"))
  {
    assert "id" in KeySet(names);
  }

  /** `update_attributes` writes the given pairs and leaves every other
      getter's value as it was. */
  lemma UpdateLeavesOthers(s: Schema, m: Model, attrs: Hash, n: Key)
    requires SpiritClass(s) && attrs.vals.Keys <= s.writers && n in s.writers
    ensures var u := UpdateAttributes(s, m, attrs).0;
      && (n in attrs.vals ==> Read(s, u.attributes, n) == Ok(attrs.vals[n]))
      && (n !in attrs.vals ==> Read(s, u.attributes, n) == Read(s, m.attributes, n))
  {
  }
}
