# Shoden in Dafny

A model of the persistence core of Shoden, a small Ruby object mapper that
keeps every instance of a model class as one JSONB document in a Postgres
table named after the class. The model covers:

- the record life cycle of `Shoden::Model`: `new`, `id`, `update`, `save`
  (INSERT or UPDATE), `update_attributes`, `create`, `load!`, `Model[]`,
  `destroy`;
- the class declarations (`attribute` with the default caster or the
  `to_i` caster, `index`, `unique`,
  `reference`, `collection`) and the accessors they define;
- the query translation of `Model.query` and `Model.filter`: which
  parametrised predicates a condition map becomes, and which rows those
  predicates select;
- the naming rules `table_name` and `to_reference`;
- the relationship proxy `Shoden::Proxy` (`create`, `all`, `count`, `any?`,
  `first`, `last`, `[]`, and the parent filter that scopes them);
- `Spirit::Model`, the in-memory stand-in with the same accessors.

The database is a value: `Store.Table` maps row ids to documents and carries
the next value of the id sequence and the keys that have a unique index.
Every operation that touches it takes the table and returns the table after
it. A Ruby exception is an `Err` of `Errors.Error`. Ruby values are
`Values.Value` (nil, booleans, integers, strings). Symbol and string keys are
one `Key` type. Hashes keep insertion order (`OrderedHash.Hash`).

Modules, in dependency order:

| file | module | models |
|---|---|---|
| errors.dfy | Errors | `Option`, `Result` and the exceptions raised |
| values.dfy | Values | Ruby values, `to_i`, `Integer#to_s`, Postgres `int4` input, the text of a parameter |
| ordered_hash.dfy | OrderedHash | Ruby's insertion-ordered `Hash`: `[]`, `[]=`, `delete`, `merge`, `flatten` |
| naming.dfy | Naming | `table_name`, `to_reference`, `Proxy#key` |
| schema.dfy | Schema | the class declarations, getters, setters and `update` |
| store.dfy | Store | the table: INSERT, UPDATE, SELECT and DELETE by id; unique indexes |
| query.dfy | Query | `Model.query`: statement, parameters, selected rows, ordering |
| records.dfy | Records | the life cycle of a record, `Model[]` and `filter` |
| proxy.dfy | Relations | `Shoden::Proxy` and the `reference` reader |
| spirit.dfy | Spirit | `Spirit::Model` |

Where the design notes and the code differ, the model follows the code:

- A unique collision on UPDATE is not re-raised as `UniqueIndexViolation`.
  The `rescue` covers only the INSERT.
- `Model#id` before the record has an id is nil, not a `MissingID` error.
- An unknown key in `update` raises `NoMethodError` for its setter.
- A stored id is an integer the `SERIAL` sequence gives out. That sequence
  is an `int4` sequence, so an INSERT fails once it is exhausted. `Model[]`
  takes any value Postgres can read as an `int4`.

## Model

| member | source | states |
|---|---|---|
| Values.ToI | lib/shoden/model.rb:14-17 | `to_i` fails only on booleans, nil reads as 0, and an integer reads as itself |
| Values.UnderscoreGroupsDigits | lib/shoden/model.rb:14-17 | `to_i` reads a single underscore between digits as grouping: `"1_000"` is 1000 |
| Values.RadixPrefixSkipped | lib/shoden/model.rb:14-17 | `to_i` skips a leading `0d` or `0D` prefix: `"0d12"` is 12 |
| Values.DecimalToI | lib/shoden/model.rb:58-60 | the id the INSERT returns as decimal text reads back as the same integer under `to_i` |
| Values.DecimalInjective | lib/shoden/model.rb:58-60 | two integers print as the same text exactly when they are equal |
| Values.DecimalToPgInt4 | lib/shoden/model.rb:231-233 | Postgres reads the printed text of an integer back as that integer when it fits in `int4`, and rejects it otherwise |
| Values.IntTextInjective | lib/shoden/proxy.rb:38-40 | two integer ids become the same parameter text exactly when they are equal |
| OrderedHash.Put | lib/shoden/model.rb:116 | `[]=` keeps every existing key at its position, adds a new key as the one key after them, and keeps the size for a present key |
| OrderedHash.PutReadsBack | lib/shoden/model.rb:116 | after `h[k] = v`, `h[k]` is `v` and every other key reads as before; a new key is appended |
| OrderedHash.Merge | lib/shoden/proxy.rb:3-5 | `merge`: a key of the argument reads as the argument's value and every other key as in the receiver; the receiver's keys come first, in order, followed by the argument's new keys in the argument's order |
| OrderedHash.FlattenKeys | lib/shoden/model.rb:162 | `flatten` lists key, value, key, value in insertion order: the i-th key at position 2i, its value right after |
| Naming.ToReference | lib/shoden/model.rb:214-219 | a reference name has no upper-case letter and no `::` |
| Naming.ToReferenceErasure | lib/shoden/model.rb:214-219 | removing the inserted underscores gives the last name segment, lower-cased |
| Naming.QualifiedReference | lib/shoden/model.rb:214-219 | a namespace prefix never changes the reference name |
| Naming.UnderscoreAppend | lib/shoden/model.rb:217 | the underscore pass splits at any cut, with an underscore at the cut exactly when it falls between a lower case letter or digit and an upper case letter |
| Naming.CamelCaseReference | lib/shoden/model.rb:214-219 | a class name of two camel-case words becomes the two words lower-cased and joined by `_`, as `SproutTree` becomes `sprout_tree` |
| Naming.TableName | lib/shoden/model.rb:210-212 | the table name is `Shoden::` followed by the class name |
| Naming.TableNameInjective | lib/shoden/model.rb:210-212 | two classes share a table name exactly when they have the same name |
| Naming.ForeignKey | lib/shoden/proxy.rb:42-44 | the proxy key is the parent's reference name followed by `_id`, and is never one of the reserved keys `id` and `order` |
| Naming.TreeForeignKey | lib/shoden/proxy.rb:42-44 | the key the children of `Tree` carry is `tree_id` |
| Schema.Cast | lib/shoden/model.rb:112-115 | the default caster returns the stored value, and `to_i` returns an integer or fails on a boolean |
| Schema.AppendIfAbsent | lib/shoden/model.rb:104-110 | `list << name unless list.include?(name)` adds exactly that name, keeps the list as a prefix and keeps it free of duplicates |
| Schema.DeclareIdempotent | lib/shoden/model.rb:104-139 | declaring anything a second time leaves the registry unchanged |
| Schema.DeclaredListsFirstOccurrence | lib/shoden/model.rb:104-130 | each declaration list holds every declared name once, in order of first declaration |
| Schema.DeclaredTwiceListedOnce | lib/shoden/model.rb:104-110 | a name declared many times is listed and appears at one position only |
| Schema.Read | lib/shoden/model.rb:112-115 | a getter fails exactly when its caster is `to_i` and the stored value is a boolean; the default caster returns the stored value and `to_i` its integer; a missing getter is `NoMethodError` |
| Schema.Write | lib/shoden/model.rb:116 | a setter stores the value under its own key and changes no other key; a missing setter is `NoMethodError` for `name=` |
| Schema.AssignKeys | lib/shoden/model.rb:25-27 | the setters run in order; the run stops at the first name, in order, with no setter, having written exactly the pairs before it, and otherwise writes every pair |
| Schema.Assign | lib/shoden/model.rb:25-27 | `update` succeeds exactly when every key has a setter, and then yields the old map overwritten by the new pairs; otherwise it reports the first key in insertion order without a setter, and the map holds the pairs before it written over the old map |
| Schema.AttributeGetAfterSet | lib/shoden/model.rb:112-117 | after `name = v` the getter returns the caster applied to `v`, which is `v` for the default caster |
| Schema.ToIntegerCasterReadsBack | lib/shoden/model.rb:112-117 | a `to_i` getter reads back an integer whether it was stored as the integer or as its decimal text |
| Schema.ReferenceAccessors | lib/shoden/model.rb:126-135 | `reference` lists the name, and its `name_id` accessors read back what they store |
| Store.CollideSymmetric | lib/shoden/model.rb:221-229 | two documents collide on a unique index in either order alike |
| Store.Insert | lib/shoden/model.rb:58-59 | INSERT fails without taking a value once the `int4` sequence is exhausted; otherwise it takes the next value even when it fails, fails exactly on a unique collision, and adds the row under that id |
| Store.UpdateRow | lib/shoden/model.rb:54-55 | UPDATE by id replaces the row's document, leaves the table as it was for a missing id and fails on a collision with another row |
| Store.IdParam | lib/shoden/model.rb:231-233 | nil is NULL, an integer is itself when it fits in `int4`, and a boolean is invalid input |
| Store.RowFor | lib/shoden/model.rb:231-234 | `WHERE id = $1` selects a stored row or none, and fails exactly when Postgres cannot read the parameter as an `int4` |
| Store.Lookup | lib/shoden/model.rb:231-237 | `lookup` gives the stored document of an existing row and nil for a missing one |
| Store.DeleteRow | lib/shoden/model.rb:19-21 | DELETE removes exactly the row of the id and reports it, or changes nothing |
| Query.Translate | lib/shoden/model.rb:153-156 | the id path is taken exactly when the id is truthy and no field condition is left |
| Query.PlaceholdersUsedOnce | lib/shoden/model.rb:160-167 | the placeholders of a statement are `$1` to `$n` in order, each used once, where `n` is the number of parameters |
| Query.TranslateParameters | lib/shoden/model.rb:152-170 | field `i` is compared at `$2i+1 = $2i+2` with its key and value, the id is the last parameter, and `id` and `order` are never compared as fields |
| Query.ComposeBadId | lib/shoden/model.rb:156-167 | a statement fails on its id parameter exactly when the id is truthy and not a valid `int4` |
| Query.FieldPredicatesMeaning | lib/shoden/model.rb:161-162 | the field predicates hold of a row exactly when every field's text equals the row's `->>` text |
| Query.RowMeaning | lib/shoden/model.rb:152-175 | the WHERE clause holds of a row exactly when the row satisfies the condition map |
| Query.Select | lib/shoden/model.rb:157-173 | the rows selected are exactly those where every predicate holds |
| Query.SelectMeansSatisfies | lib/shoden/model.rb:152-175 | a query fails exactly on unusable conditions, and otherwise selects exactly the rows that satisfy them |
| Query.Count | lib/shoden/model.rb:152-173 | `COUNT(id)` is the number of rows that satisfy the conditions |
| Query.Limit | lib/shoden/model.rb:170-171 | "id ASC LIMIT 1" keeps the least id, "id DESC LIMIT 1" the greatest, and no ordering keeps every row |
| Query.Rows | lib/shoden/model.rb:152-175 | the rows `query` returns are those satisfying the conditions, cut to one by either of the two orderings |
| Query.RowsOrdered | lib/shoden/model.rb:171-174 | under "id ASC LIMIT 1" the rows are just the least satisfying id, under "id DESC LIMIT 1" just the greatest, and none when nothing satisfies |
| Query.RowsUnordered | lib/shoden/model.rb:152-175 | without an ordering the rows are exactly those that satisfy the conditions |
| Query.Sql | lib/shoden/model.rb:156-171 | the id path's text is the base query followed by `WHERE id = $1`; otherwise it is the base query, `WHERE`, the predicates' texts joined by " AND ", and the ORDER BY text |
| Query.WhereTextJoins | lib/shoden/model.rb:169 | the WHERE text built from the front equals Ruby's `join(" AND ")` of the predicates' texts, built from the back |
| Query.SqlText | lib/shoden/model.rb:160-171 | off the id path, field `i` is written `data->>$2i+1 = $2i+2`, a truthy id follows as `id = $2n+1`, all joined by " AND ", then `ORDER BY` and the interpolated order when one was given |
| Query.SqlExamples | lib/shoden/model.rb:161-171 | the WHERE text for a field and an id is `data->>$1 = $2 AND id = $3` |
| Records.Payload | lib/shoden/model.rb:9 | a truthy `id` leaves the map and nothing else does |
| Records.New | lib/shoden/model.rb:8-12 | `new` succeeds exactly when every other key has a setter, and otherwise fails for the first such key without one; the record holds exactly those pairs and has an id exactly when `id` was truthy |
| Records.Id | lib/shoden/model.rb:14-17 | `id` is nil exactly when the record has none, and fails exactly when it holds a boolean |
| Records.AdoptedIdReadsBack | lib/shoden/model.rb:58-60 | a record that adopted the text id of row `n` reports the id `n` |
| Records.Update | lib/shoden/model.rb:25-27 | `update` keeps the id and overwrites the given pairs, or fails on the first name, in insertion order, without a setter |
| Records.Save | lib/shoden/model.rb:52-65 | a new record is inserted under the next id and adopts it, or fails with `UniqueIndexViolation` without a row; a stored record keeps its id, succeeds exactly when its id is an `int4` that does not collide on the row it names, and then replaces that row's document, or changes no row when none has that id |
| Records.SaveUpdatesSameRow | lib/shoden/model.rb:53-55 | saving a stored record replaces its row's document and adds no row |
| Records.SaveTwiceKeepsId | lib/shoden/model.rb:34-37 | a second save keeps the id the first one gave and adds no row |
| Records.UpdateAttributes | lib/shoden/model.rb:29-32 | `update_attributes` writes the pairs and then saves, or changes nothing when a name has no setter |
| Records.Create | lib/shoden/model.rb:84-86 | `create` without an id succeeds exactly when the sequence is not exhausted and no stored row collides with it on a unique index, and then stores the pairs under the next id and returns a record with that id; with an id it keeps that id, leaves the sequence alone, and fails for a boolean id |
| Records.CreateDistinctUniques | lib/shoden/model.rb:52-64 | two creates that collide neither with each other nor with a stored row both succeed, under consecutive ids |
| Records.CreateCollision | lib/shoden/model.rb:61-62 | a create that collides with a stored row on a unique index raises `UniqueIndexViolation`, or the sequence's error once it is exhausted, and adds no row |
| Records.LoadBang | lib/shoden/model.rb:39-46 | `load!` is nil exactly for a missing row, and otherwise merges the stored document into the record and keeps its id |
| Records.FindById | lib/shoden/model.rb:100-102 | `Model[n]` is the record of row `n` with id `n` and its stored pairs, or nil when there is no such row |
| Records.FindWithoutId | lib/shoden/model.rb:100-102 | `Model[nil]` calls the setter `id=`, which fails without an `id` attribute |
| Records.Destroy | lib/shoden/model.rb:19-23 | `destroy` removes exactly the record's row and returns its id as text; with no such row it fails |
| Records.FindAfterDestroy | lib/shoden/model.rb:19-23 | after `destroy`, `Model[id]` is nil |
| Records.Materialize | lib/shoden/model.rb:144-149 | a yielded row is a record with the row's id and the document's other pairs |
| Records.Yield | lib/shoden/model.rb:144-149 | `filter` yields one record per selected row, keyed by the row id |
| Records.Filter | lib/shoden/model.rb:141-150 | `filter` fails exactly on unusable conditions, and otherwise yields the records of the rows `query` returns |
| Records.First | lib/shoden/proxy.rb:22 | `first` is nil exactly when there is no row, and otherwise is the record of a row whose id is least among them |
| Records.FirstOfYield | lib/shoden/proxy.rb:33 | `first` of a single selected row is that row's record |
| Records.CreateThenFind | lib/shoden/model.rb:84-102 | a created record is found again by `Model[]` with the same id and the same pairs |
| Records.CreateFindRead | lib/shoden/model.rb:112-117 | after `create` and `Model[]`, a getter returns its caster applied to the value given to `create` |
| Relations.Key | lib/shoden/proxy.rb:42-44 | the proxy key is the parent's reference name followed by `_id` |
| Relations.ParentFilterSelectsChildren | lib/shoden/proxy.rb:38-40 | the parent filter selects a row exactly when the row's document gives the key the text of the parent's id |
| Relations.ScopedSatisfying | lib/shoden/proxy.rb:7-9 | under the parent filter alone, a query selects exactly the parent's children |
| Relations.ChildrenSeparateParents | lib/shoden/proxy.rb:38-40 | a row pointing at parent `q` is a child of parent `n` exactly when `q = n` |
| Relations.Create | lib/shoden/proxy.rb:3-5 | a child created through the proxy holds the given pairs, less a truthy id, with the parent's id under the key whatever the arguments said |
| Relations.CreateThenAll | lib/shoden/proxy.rb:3-9 | a child created through the proxy is stored under the next id and is among the parent's children |
| Relations.All | lib/shoden/proxy.rb:7-9 | `all` yields exactly the parent's children |
| Relations.Count | lib/shoden/proxy.rb:11-14 | `count` is the number of the parent's children |
| Relations.Any | lib/shoden/proxy.rb:16-18 | `any?` holds exactly when the parent has a child, that is when `count > 0` |
| Relations.Scoped | lib/shoden/proxy.rb:20-31 | `first`, `last` and `[]` send the added pair and the parent filter, and only the filter is a field condition |
| Relations.OrderedFirst | lib/shoden/proxy.rb:20-28 | under either ordering, `filter(...).first` is the selected row of least or greatest id |
| Relations.First | lib/shoden/proxy.rb:20-23 | `first` is the child of least id, or nil without children |
| Relations.Last | lib/shoden/proxy.rb:25-28 | `last` is the child of greatest id, or nil without children |
| Relations.AtSatisfying | lib/shoden/proxy.rb:30-34 | `[](id)` selects the row of that id when it is a child of the parent, and no row otherwise |
| Relations.AtRows | lib/shoden/proxy.rb:30-34 | the query of `[](id)` returns that row, or nothing |
| Relations.AtBadId | lib/shoden/proxy.rb:30-34 | an id that is not a valid integer makes `[]` fail |
| Relations.AtGoodId | lib/shoden/proxy.rb:30-34 | `[](n)` is child `n`, or nil when row `n` is missing or belongs to another parent |
| Relations.At | lib/shoden/proxy.rb:30-34 | `[](id)` is the child with that id, nil for another parent's row, an error for an id Postgres cannot read as an `int4`, and for nil or false the child of least id |
| Relations.AtFalsyId | lib/shoden/proxy.rb:30-34 | `[](nil)` and `[](false)` drop the id, so the query is the parent filter alone and its first row is the child of least id |
| Relations.Referenced | lib/shoden/model.rb:135-138 | the `reference` reader, with the referenced class looked up at the top level, is that model's record for the stored key, nil for a missing row, and `NoMethodError` for a nil key when the referenced model has no `id` attribute |
| Relations.ReferencedAsWritten | lib/shoden/model.rb:135-138 | the reader as written raises NameError for `Shoden::<model>` unless the referenced class is defined inside `Shoden`, and is the top-level reader otherwise |
| Relations.TopLevelParentRaises | lib/shoden/model.rb:136 | for a `Tree` defined at the top level, the reader as written raises NameError while the top-level lookup returns the stored parent |
| Relations.CreatedChildReferencesParent | lib/shoden/model.rb:126-138 | a child created through a parent's proxy reads that parent back through its `reference` |
| Spirit.Attribute | lib/spirit.rb:29-32 | `attribute` adds a raw getter and setter for the name and keeps every other accessor |
| Spirit.Declared | lib/spirit.rb:29-32 | a class body has a setter for exactly the names it declares, and every accessor is raw |
| Spirit.Id | lib/spirit.rb:17-19 | every record reports the id 1 |
| Spirit.UpdateAttributes | lib/spirit.rb:21-23 | the setters run in order; they stop at the first name, in insertion order, without a setter, which is the error, and the record keeps exactly the pairs written before it; otherwise every pair is written |
| Spirit.New | lib/spirit.rb:12-15 | `new` holds exactly the given pairs, or fails for the first name without a setter, `id` included |
| Spirit.Create | lib/spirit.rb:25-27 | `create` is `new`, and nothing is stored |
| Spirit.CreatedReadsBack | lib/spirit.rb:25-32 | a declared getter returns the value given to `create`, or nil for a name that was not given |
| Spirit.Call | lib/spirit.rb:17-32 | sending a name to a record: a getter `attribute` declared returns what the record holds under it, overriding the inherited methods; an undeclared `id` answers with the record's id; any other undeclared name is `NoMethodError` |
| Spirit.UndeclaredRead | lib/spirit.rb:17-32 | for a name the class body never declared there is no getter, and sending it to a record is `NoMethodError`, except `id`, which answers 1 |
| Spirit.DeclaredIdOverrides | lib/spirit.rb:29-32 | `attribute :id` replaces the inherited `id`: the record answers with the value it holds under `id` |
| Spirit.UpdateLeavesOthers | lib/spirit.rb:21-23 | `update_attributes` writes the given pairs and leaves every other getter's value unchanged |

## Left out

- The connection: `Shoden.url`, `Shoden.connection` and `Spirit.connect` / `connected?`. The table is a parameter of every operation instead.
- DDL: `setup`, `create_index`, `destroy_all` and `destroy_table`. The table's unique keys stand for the unique indexes `setup` would create. Plain `index` declarations only speed up lookups, so they change no result.
- `Model.all`, `Model.count`, `Model.first`, `Model.last` and `collect`. These are class-wide reads outside the record and proxy core. `collect` orders by a bound parameter, which Postgres treats as a constant.
- JSON: `to_json` and `from_json` are taken to be lossless. A stored document is the attribute map itself, with symbol and string keys identified. Integer and string values keep their type through the round trip.
- Records.Save: the UPDATE sends the attribute hash itself as the parameter, not its JSON text. How the driver turns a Ruby hash into a parameter is not modelled; the model stores the map, as the INSERT path does.
- Records.Save: a failed `update`, `save` or `load!` returns the exception, but the record the caller holds may already carry the setters that ran before it. Only Spirit.UpdateAttributes returns that partial state.
- JSON key order: JSONB keeps an object's keys in its own order (shorter keys first) and keeps only the last of duplicate keys. A document read back may therefore list its keys in another order than `to_json` wrote them. The model keeps the written order. Of the results modelled here, only which missing setter `load!`, `Model[]` or `filter` reports first could depend on it.
- Naming.ToReference: `downcase` folds only the ASCII letters `A`-`Z`. Ruby's `String#downcase` also folds non-ASCII capitals (`Ä` to `ä`), which the model leaves as they are, so for a class name with such letters the model's reference name, and the proxy key built from it, differ from Ruby's.
- Schema.Cast: only the two casters the library's own tests use are modelled: the default `->(x) { x }` and `->(x) { x.to_i }`. `attribute` accepts any lambda; an arbitrary lambda is arbitrary Ruby code, so the model gives no contract for it.
- Values.PgInt4: the `int4` input syntax of PostgreSQL 15 and earlier: optional white space and sign, then decimal digits. PostgreSQL 16 also accepts underscores between digits and the `0x`, `0o` and `0b` prefixes; the model rejects those texts as invalid input.
- Store.Insert: the `SERIAL` sequence is the `int4` sequence PostgreSQL 10 and later create, whose `nextval` fails past the largest `int4` without using up a value. Before version 10 the sequence was `bigint`, and the INSERT failed later, in the `int4` column, after using up the value.
- Mutations of the caller's hash are not modelled. `initialize` deletes `:id` from the hash it is given (lib/shoden/model.rb:9). `query` deletes `:id` and `:order` from the caller's conditions (lib/shoden/model.rb:153-154), and `filter` passes its caller's hash to `query` unchanged (lib/shoden/model.rb:142), so after `Model.filter(h)` the caller's `h` has lost those keys. The model's operations take the hash as a value and return only their result.
- `filter` returns a lazy enumerator. The model gives the whole mapping from row id to the record, or to the error building it, at once.
- Query.Rows: row order is modelled only for the two orderings the proxy sends, "id ASC LIMIT 1" and "id DESC LIMIT 1". Any other `order` text keeps every selected row, and the order of rows without ORDER BY is not modelled.
- Records.First: without an ORDER BY the database may return rows in any order. The model takes the row of least id.
- Relations.At: `[](nil)` and `[](false)` send no ORDER BY, so their `first` is whichever child the database returns first. The model takes the child of least id, as Records.First does.
- Relations.AtFalsyId: it states the least-id choice of Records.First for an unordered query; Postgres promises only some child, and nil exactly when there is none.
- Schema.Assign: `send(:"#{name}=")` turns the keys `=`, `!` and `==` into the methods `==`, `!=` and `===`, which every object has. Ruby's `update` then compares and writes nothing, without raising. The model reports `NoMethodError` for these keys, since they have no setter.
- Schema.Read: only the getters that `attribute`, `collection` and `reference` define. A Shoden model's own methods `id` (lib/shoden/model.rb:14-17) and `attributes` (lib/shoden/model.rb:6) are Records.Id and the record's map; Read reports `NoMethodError` for those names when no getter of that name was declared.
- Spirit.Call: of the methods every Ruby object already has, only `Spirit::Model#id` is modelled. A name such as `hash` or `class` answers in Ruby, while the model reports `NoMethodError`.
- Spirit.UpdateAttributes: the same three keys `=`, `!` and `==` call a comparison in Ruby instead of raising; the model reports `NoMethodError` for them.
- Metaprogramming: `define_method`, `send`, `Kernel.const_get` and `inherited`. Classes are passed as values: a `Schema` for the class and a `Table` for its rows. Of `const_get`, only whether a name resolves inside `module Shoden` is modelled, by the set of constant paths defined there.
- `collection` returns a proxy built from the class it names. The model builds `Relations.Proxy` directly from the child schema and the parent record.
- Symbols and strings as keys are one type. The proxy key is a string and the attribute keys are symbols in Ruby, but the driver and JSON make them the same text. The exceptions are the reserved keys `:id` and `:order`, which the two items below cover.
- Records.New: `initialize` takes the id from `attrs[:id]` (lib/shoden/model.rb:9), which finds only the symbol. In Ruby a string key `"id"` stays in the hash and reaches the setter `id=`. The model adopts a key `"id"` of either kind as the record's id.
- Query.Translate: `query` removes only the symbols `:id` and `:order` from the conditions (lib/shoden/model.rb:153-154). In Ruby a string key `"id"` or `"order"` stays a field condition on the stored document. The model reads either kind as the reserved key, and so do Query.FieldConditions and every member built on Translate. The library's own conditions never hold these strings: the proxy's key is a foreign-key name ending in `_id`, and its `id`/`order` keys are symbols (lib/shoden/proxy.rb:21-39).
- The spirit test calls `save` on a `Spirit::Model`, which defines no `save`; there is nothing to model for it.

## Findings

| source | as written | input that shows it | evidently intended | confidence | as-written member | corrected member |
|---|---|---|---|---|---|---|
| lib/shoden/model.rb:135-137 | the `reference` reader looks the referenced class up with `Kernel.const_get("Shoden::#{model}")`; Ruby looks up a path's second segment in `Shoden` alone, without falling back to the top-level constants | `class Tree < Shoden::Model` at the top level and `reference :tree, :Tree` on `Sprout`, as test/shoden_test.rb:18-25 declares them; `sprout.tree` raises NameError for `Shoden::Tree` | the class the name denotes, as `collection` finds it with `Kernel.const_get(model)` (model.rb:121), so that `sprout.tree` is the tree whose id the sprout stores, as test/shoden_test.rb:98 expects | not executed; high | Relations.ReferencedAsWritten, Relations.TopLevelParentRaises | Relations.Referenced |
