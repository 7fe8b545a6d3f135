/**
  Ruby's `Hash` as the library uses it: a map from names to values that
  remembers the order in which keys were first inserted. Attribute maps,
  condition maps and the decoded JSON documents are all of this type; the
  order matters where the library iterates (`update`, `flatten`).
 */
module OrderedHash {
  import opened Values

  predicate Distinct(ks: seq<Key>) {
    forall i, j :: 0 <= i < j < |ks| ==> ks[i] != ks[j]
  }

  function KeySet(ks: seq<Key>): set<Key> {
    set k | k in ks
  }

  /** `keys` is the insertion order, `vals` the contents. */
  datatype HashRep = HashRep(keys: seq<Key>, vals: map<Key, Value>)

  type Hash = h: HashRep | Distinct(h.keys) && KeySet(h.keys) == h.vals.Keys
    witness HashRep([], map[])

  const Empty: Hash := HashRep([], map[])

  /** Writing pairs over the empty map gives just those pairs. */
  lemma EmptyOverridden(m: map<Key, Value>)
    ensures Empty.vals + m == m
  {
  }

  function Size(h: Hash): nat {
    |h.keys|
  }

  /** `Hash#[]`: the stored value, or nil for a missing key. */
  function Get(h: Hash, k: Key): (v: Value)
    ensures k !in h.vals ==> v == Nil
  {
    if k in h.vals then h.vals[k] else Nil
  }

  /** `Hash#[]=`: a present key keeps its position, a new key goes last. */
  function Put(h: Hash, k: Key, v: Value): (r: Hash)
    ensures r.vals == h.vals[k := v]
    ensures Size(h) <= Size(r) && r.keys[..Size(h)] == h.keys
    ensures Size(r) == Size(h) <==> k in h.vals
    ensures k !in h.vals ==> Size(r) == Size(h) + 1 && r.keys[Size(h)] == k
  {
    if k in h.vals then HashRep(h.keys, h.vals[k := v])
    else
      assert KeySet(h.keys + [k]) == KeySet(h.keys) + {k};
      HashRep(h.keys + [k], h.vals[k := v])
  }

  /** After `h[k] = v`, `h[k]` is `v` and every other key reads as before;
      the keys keep their order, and a new key is the last one. */
  lemma PutReadsBack(h: Hash, k: Key, v: Value)
    ensures forall j :: Get(Put(h, k, v), j) == if j == k then v else Get(h, j)
    ensures Put(h, k, v).keys[..Size(h)] == h.keys
    ensures k !in h.vals ==> Put(h, k, v).keys == h.keys + [k]
  {
    var r := Put(h, k, v);
    if k !in h.vals {
      assert r.keys == r.keys[..Size(h)] + [r.keys[Size(h)]];
    }
  }

  /** The key sequence without `k`, the others in their order. */
  function Remove(ks: seq<Key>, k: Key): (r: seq<Key>)
    ensures KeySet(r) == KeySet(ks) - {k}
    ensures Distinct(ks) ==> Distinct(r)
    ensures |r| <= |ks|
  {
    if ks == [] then []
    else if ks[0] == k then Remove(ks[1..], k)
    else
      var rest := Remove(ks[1..], k);
      assert KeySet(ks) == {ks[0]} + KeySet(ks[1..]);
      assert KeySet([ks[0]] + rest) == {ks[0]} + KeySet(rest);
      if Distinct(ks) then
        assert ks[0] !in KeySet(ks[1..]);
        DistinctCons(ks[0], rest);
        [ks[0]] + rest
      else
        [ks[0]] + rest
  }

  lemma DistinctCons(x: Key, s: seq<Key>)
    requires x !in s && Distinct(s)
    ensures Distinct([x] + s)
  {
    var t := [x] + s;
    forall i, j | 0 <= i < j < |t|
      ensures t[i] != t[j]
    {
      if i > 0 {
        assert t[i] == s[i - 1] && t[j] == s[j - 1];
      } else {
        assert t[j] == s[j - 1];
      }
    }
  }

  /** `Hash#delete`: drops the key, keeping the order of the rest. */
  function Delete(h: Hash, k: Key): (r: Hash)
    ensures r.vals == h.vals - {k}
    ensures r.keys == Remove(h.keys, k)
  {
    HashRep(Remove(h.keys, k), h.vals - {k})
  }

  /** `r` picks elements of `ks` keeping their relative order. */
  predicate InOrder(r: seq<Key>, ks: seq<Key>) {
    if r == [] then true
    else if ks == [] then false
    else (r[0] == ks[0] && InOrder(r[1..], ks[1..])) || InOrder(r, ks[1..])
  }

  /** The keys of `ks` outside `seen`, in their order. */
  function Fresh(ks: seq<Key>, seen: set<Key>): (r: seq<Key>)
    ensures KeySet(r) == KeySet(ks) - seen
    ensures InOrder(r, ks)
    ensures Distinct(ks) ==> Distinct(r)
  {
    if ks == [] then []
    else
      var rest := Fresh(ks[1..], seen);
      assert KeySet(ks) == {ks[0]} + KeySet(ks[1..]);
      if ks[0] in seen then rest
      else
        assert KeySet([ks[0]] + rest) == {ks[0]} + KeySet(rest);
        assert ([ks[0]] + rest)[1..] == rest;
        if Distinct(ks) then
          assert ks[0] !in KeySet(ks[1..]);
          DistinctCons(ks[0], rest);
          [ks[0]] + rest
        else
          [ks[0]] + rest
  }

  lemma DistinctAppend(a: seq<Key>, b: seq<Key>)
    requires Distinct(a) && Distinct(b) && KeySet(a) !! KeySet(b)
    ensures Distinct(a + b)
  {
    var t := a + b;
    forall i, j | 0 <= i < j < |t|
      ensures t[i] != t[j]
    {
      if j >= |a| && i < |a| {
        assert t[i] in KeySet(a) && t[j] == b[j - |a|] && t[j] in KeySet(b);
      } else if i >= |a| {
        assert t[i] == b[i - |a|] && t[j] == b[j - |a|];
      }
    }
  }

  /** `Hash#merge`: the pairs of `o` override those of `h`; keys new to `h`
      follow its own keys, in the order `o` has them. */
  function Merge(h: Hash, o: Hash): (r: Hash)
    ensures forall j :: Get(r, j) == if j in o.vals then o.vals[j] else Get(h, j)
    ensures r.vals.Keys == h.vals.Keys + o.vals.Keys
    ensures Size(h) <= Size(r) && r.keys[..Size(h)] == h.keys
    ensures r.keys[Size(h)..] == Fresh(o.keys, h.vals.Keys)
  {
    MergedKeys(h, o);
    var r: Hash := HashRep(h.keys + Fresh(o.keys, h.vals.Keys), h.vals + o.vals);
    UnionGet(h, o, r);
    r
  }

  /** Reading a union: the second map's value where it has one. */
  lemma UnionGet(h: Hash, o: Hash, r: Hash)
    requires r.vals == h.vals + o.vals
    ensures forall j :: Get(r, j) == if j in o.vals then o.vals[j] else Get(h, j)
  {
  }

  /** The receiver's keys followed by the new keys of the argument are
      distinct and are the keys of both. */
  lemma MergedKeys(h: Hash, o: Hash)
    ensures var ks := h.keys + Fresh(o.keys, h.vals.Keys);
      && Distinct(ks) && KeySet(ks) == (h.vals + o.vals).Keys
      && ks[..|h.keys|] == h.keys && ks[|h.keys|..] == Fresh(o.keys, h.vals.Keys)
  {
    var added := Fresh(o.keys, h.vals.Keys);
    assert (h.keys + added)[..|h.keys|] == h.keys;
    assert (h.keys + added)[|h.keys|..] == added;
    DistinctAppend(h.keys, added);
    assert KeySet(h.keys + added) == KeySet(h.keys) + KeySet(added);
  }

  function FlattenKeys(ks: seq<Key>, m: map<Key, Value>): (r: seq<Value>)
    requires KeySet(ks) <= m.Keys
    ensures |r| == 2 * |ks|
    ensures forall i :: 0 <= i < |ks| ==> r[2 * i] == Str(ks[i]) && r[2 * i + 1] == m[ks[i]]
  {
    if ks == [] then []
    else
      assert KeySet(ks) == {ks[0]} + KeySet(ks[1..]);
      var rest := FlattenKeys(ks[1..], m);
      var r := [Str(ks[0]), m[ks[0]]] + rest;
      forall i | 1 <= i < |ks|
        ensures r[2 * i] == Str(ks[i]) && r[2 * i + 1] == m[ks[i]]
      {
        var j := i - 1;
        assert ks[1..][j] == ks[i];
        assert r[2 * i] == rest[2 * j] && r[2 * i + 1] == rest[2 * j + 1];
      }
      r
  }

  /** `Hash#flatten`: key, value, key, value, ... in insertion order; a key
      becomes the string it names. */
  function Flatten(h: Hash): (r: seq<Value>)
    ensures |r| == 2 * Size(h)
  {
    FlattenKeys(h.keys, h.vals)
  }

  /** The i-th pair of `flatten`: the i-th key, then its value. */
  lemma FlattenAt(h: Hash, i: nat)
    requires i < Size(h)
    ensures Flatten(h)[2 * i] == Str(h.keys[i]) && Flatten(h)[2 * i + 1] == Get(h, h.keys[i])
  {
    assert h.keys[i] in KeySet(h.keys);
  }

  /** A key the second map lacks keeps its value from the first. */
  lemma MergeKeeps(h: Hash, o: Hash, k: Key)
    requires k !in o.vals
    ensures Get(Merge(h, o), k) == Get(h, k)
  {
  }

  /** Merging a one-pair map sets that one pair. */
  lemma MergeSingle(h: Hash, k: Key, v: Value)
    ensures Merge(h, Single(k, v)).vals == h.vals[k := v]
  {
    var o := Single(k, v);
    assert o.vals == map[k := v];
    assert Merge(h, o).vals == h.vals + map[k := v];
    UnionSingleton(h.vals, k, v);
  }

  lemma UpdateMinus(m: map<Key, Value>, k: Key, v: Value)
    ensures m[k := v] - {k} == m - {k}
  {
  }

  lemma MinusUpdate(m: map<Key, Value>, k: Key, v: Value, x: Key)
    requires k != x
    ensures m[k := v] - {x} == (m - {x})[k := v]
  {
  }

  lemma UnionSingleton(m: map<Key, Value>, k: Key, v: Value)
    ensures m + map[k := v] == m[k := v]
  {
  }

  /** The one-pair literal `{ k => v }`. */
  function Single(k: Key, v: Value): (r: Hash)
    ensures r.keys == [k] && r.vals == map[k := v]
  {
    Put(Empty, k, v)
  }

  /** A second key put into a one-pair map goes after the first. */
  lemma SinglePutKeys(k: Key, v: Value, key: Key, parentId: Value)
    requires k != key
    ensures Put(Single(k, v), key, parentId).keys == [k, key]
  {
    assert key !in Single(k, v).vals;
  }

  lemma SinglePutVals(k: Key, v: Value, key: Key, parentId: Value)
    ensures Put(Single(k, v), key, parentId).vals == map[k := v, key := parentId]
  {
  }

  /** Taking out keys that hold the first of two pairs and not the second
      leaves the second. */
  lemma PairMinus(k: Key, v: Value, key: Key, parentId: Value, gone: set<Key>)
    requires k in gone && key !in gone
    ensures map[k := v, key := parentId] - gone == map[key := parentId]
  {
    var left := map[k := v, key := parentId] - gone;
    assert left.Keys == {key};
  }
}
