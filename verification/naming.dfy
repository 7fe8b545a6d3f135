/**
  Names derived from a model class's name: the table it lives in
  (`Model.table_name`), its snake-case reference name (`Model.to_reference`)
  and the foreign key a child row stores to point at it (`Proxy#key`).
 */
module Naming {

  /** There is a `::` separator starting at position `i` of `s`. */
  predicate SeparatorAt(s: string, i: int) {
    0 <= i && i + 1 < |s| && s[i] == ':' && s[i + 1] == ':'
  }

  predicate NoSeparator(s: string) {
    forall i :: 0 <= i < |s| ==> !SeparatorAt(s, i)
  }

  datatype Found = NotFound | FoundAt(pos: nat)

  /** The greatest position `j <= k` where a separator starts. */
  function LastSeparator(s: string, k: int): (r: Found)
    requires k < |s|
    ensures r.NotFound? ==> forall j :: 0 <= j <= k ==> !SeparatorAt(s, j)
    ensures r.FoundAt? ==> r.pos <= k && SeparatorAt(s, r.pos)
    ensures r.FoundAt? ==> forall j :: r.pos < j <= k ==> !SeparatorAt(s, j)
    decreases k + 1
  {
    if k < 0 then NotFound
    else if SeparatorAt(s, k) then FoundAt(k)
    else LastSeparator(s, k - 1)
  }

  /** The class name without its namespace: what follows the last `::`, as
      the anchored pattern `(?:.*::)*(.*)` captures it. */
  function LastSegment(name: string): (r: string)
    ensures |r| <= |name| && r == name[|name| - |r|..]
    ensures NoSeparator(r)
    ensures r == name || (|r| + 2 <= |name| && SeparatorAt(name, |name| - |r| - 2))
  {
    match LastSeparator(name, |name| - 1)
    case NotFound => name
    case FoundAt(j) =>
      var r := name[j + 2..];
      assert forall i :: 0 <= i < |r| ==> (SeparatorAt(r, i) ==> SeparatorAt(name, j + 2 + i));
      r
  }

  predicate IsUpper(c: char) {
    'A' <= c <= 'Z'
  }

  predicate IsLowerOrDigit(c: char) {
    'a' <= c <= 'z' || '0' <= c <= '9'
  }

  /** `gsub(/([a-z\d])([A-Z])/, '\1_\2')`: an underscore between every lower
      case letter or digit and the upper case letter after it. The matches
      cannot overlap (the second character of one is never the first of
      another), so one left-to-right pass over adjacent pairs is the same. */
  function Underscore(s: string): (r: string)
    ensures |r| >= |s|
    ensures |s| > 0 ==> |r| > 0 && r[0] == s[0]
  {
    if |s| < 2 then s
    else if IsLowerOrDigit(s[0]) && IsUpper(s[1]) then [s[0], '_'] + Underscore(s[1..])
    else [s[0]] + Underscore(s[1..])
  }

  function LowerChar(c: char): (d: char)
    ensures !IsUpper(d)
  {
    if IsUpper(c) then (c as int - 'A' as int + 'a' as int) as char else c
  }

  /** `String#downcase` on ASCII letters. */
  function Downcase(s: string): (r: string)
    ensures |r| == |s|
    ensures forall i :: 0 <= i < |s| ==> r[i] == LowerChar(s[i])
  {
    if s == [] then [] else [LowerChar(s[0])] + Downcase(s[1..])
  }

  /** `Model.to_reference`. */
  function ToReference(className: string): (r: string)
    ensures forall i :: 0 <= i < |r| ==> !IsUpper(r[i])
    ensures NoSeparator(r)
  {
    var u := Underscore(LastSegment(className));
    NoColonInserted(LastSegment(className));
    var r := Downcase(u);
    assert forall i :: 0 <= i < |r| ==> (SeparatorAt(r, i) ==> SeparatorAt(u, i));
    r
  }

  /** Inserting underscores never creates a `::`. */
  lemma {:induction false} NoColonInserted(s: string)
    requires NoSeparator(s)
    ensures NoSeparator(Underscore(s))
  {
    if |s| >= 2 {
      var t := s[1..];
      assert forall i :: 0 <= i < |t| ==> (SeparatorAt(t, i) ==> SeparatorAt(s, i + 1));
      NoColonInserted(t);
      var u := Underscore(t);
      assert u[0] == s[1];
      var r := Underscore(s);
      if IsLowerOrDigit(s[0]) && IsUpper(s[1]) {
        assert r == [s[0], '_'] + u;
        forall i | 0 <= i < |r|
          ensures !SeparatorAt(r, i)
        {
          if i >= 2 {
            assert SeparatorAt(r, i) ==> SeparatorAt(u, i - 2);
          }
        }
      } else {
        assert r == [s[0]] + u;
        forall i | 0 <= i < |r|
          ensures !SeparatorAt(r, i)
        {
          if i >= 1 {
            assert SeparatorAt(r, i) ==> SeparatorAt(u, i - 1);
          } else {
            assert SeparatorAt(r, 0) ==> SeparatorAt(s, 0);
          }
        }
      }
    }
  }

  /** The string without its underscores. */
  function DropUnderscores(s: string): (r: string)
    ensures |r| <= |s|
  {
    if s == [] then [] else (if s[0] == '_' then [] else [s[0]]) + DropUnderscores(s[1..])
  }

  /** `Underscore` only adds underscores: a name with none of its own comes
      back from `DropUnderscores` unchanged. */
  lemma {:induction false} UnderscoreOnlyInserts(s: string)
    requires '_' !in s
    ensures DropUnderscores(Underscore(s)) == s
  {
    if |s| >= 2 {
      UnderscoreOnlyInserts(s[1..]);
      var u := Underscore(s[1..]);
      if IsLowerOrDigit(s[0]) && IsUpper(s[1]) {
        assert ([s[0], '_'] + u)[1..] == ['_'] + u;
        assert (['_'] + u)[1..] == u;
      } else {
        assert ([s[0]] + u)[1..] == u;
      }
    } else if |s| == 1 {
      assert s[1..] == [];
    }
  }

  lemma {:induction false} DowncaseDropCommute(s: string)
    ensures DropUnderscores(Downcase(s)) == Downcase(DropUnderscores(s))
  {
    if s != [] {
      DowncaseDropCommute(s[1..]);
      assert Downcase(s)[1..] == Downcase(s[1..]);
      var head := if s[0] == '_' then [] else [s[0]];
      assert Downcase(head + DropUnderscores(s[1..])) == Downcase(head) + Downcase(DropUnderscores(s[1..])) by {
        DowncaseAppend(head, DropUnderscores(s[1..]));
      }
    }
  }

  lemma DowncaseAppend(a: string, b: string)
    ensures Downcase(a + b) == Downcase(a) + Downcase(b)
  {
  }

  /** The reference name is the unqualified class name, lower-cased, with
      underscores inserted: erasing them gives back the lower-cased name. */
  lemma ToReferenceErasure(className: string)
    requires '_' !in LastSegment(className)
    ensures DropUnderscores(ToReference(className)) == Downcase(LastSegment(className))
  {
    var seg := LastSegment(className);
    UnderscoreOnlyInserts(seg);
    DowncaseDropCommute(Underscore(seg));
  }

  lemma TreeReference()
    ensures ToReference("Tree") == "tree"
  {
    assert LastSegment("Tree") == "Tree";
    assert Underscore("Tree") == "Tree";
  }

  /** `Underscore` works pair by pair, so it splits at any point: the two
      halves separately, with an underscore between them when the cut falls
      between a lower case letter or digit and an upper case letter. */
  lemma {:induction false} UnderscoreAppend(a: string, b: string)
    requires |a| > 0 && |b| > 0
    ensures Underscore(a + b) == Underscore(a) + (if IsLowerOrDigit(a[|a| - 1]) && IsUpper(b[0]) then "_" else "") + Underscore(b)
    decreases |a|
  {
    var s := a + b;
    var sep := if IsLowerOrDigit(a[|a| - 1]) && IsUpper(b[0]) then "_" else "";
    assert s[1..] == a[1..] + b;
    if |a| == 1 {
      var head := if IsLowerOrDigit(a[0]) && IsUpper(b[0]) then [a[0], '_'] else [a[0]];
      assert s[1..] == b;
      assert Underscore(s) == head + Underscore(b);
      assert Underscore(a) == a;
      assert head == a + sep;
    } else {
      var head := if IsLowerOrDigit(a[0]) && IsUpper(a[1]) then [a[0], '_'] else [a[0]];
      UnderscoreAppend(a[1..], b);
      assert a[1..][|a| - 2] == a[|a| - 1];
      calc {
        Underscore(s);
        head + Underscore(a[1..] + b);
        head + (Underscore(a[1..]) + sep + Underscore(b));
        { AppendAssociative(head, Underscore(a[1..]), sep, Underscore(b)); }
        head + Underscore(a[1..]) + sep + Underscore(b);
        Underscore(a) + sep + Underscore(b);
      }
    }
  }

  lemma AppendAssociative(w: string, x: string, y: string, z: string)
    ensures w + (x + y + z) == w + x + y + z
  {
  }

  /** A name with no lower-to-upper boundary is left as it is. */
  lemma {:induction false} UnderscoreNoBoundary(s: string)
    requires NoBoundary(s)
    ensures Underscore(s) == s
    decreases |s|
  {
    if |s| >= 2 {
      UnderscoreNoBoundary(s[1..]);
    }
  }

  /** A word with no lower-to-upper boundary inside it. */
  predicate NoBoundary(s: string) {
    forall i :: 0 <= i < |s| - 1 ==> !(IsLowerOrDigit(s[i]) && IsUpper(s[i + 1]))
  }

  /** A name without a colon is its own last segment. */
  lemma NoColonLastSegment(s: string)
    requires ':' !in s
    ensures LastSegment(s) == s
  {
    assert NoSeparator(s) by {
      forall i | 0 <= i < |s|
        ensures !SeparatorAt(s, i)
      {
        assert s[i] in s;
      }
    }
  }

  lemma DowncaseJoin(a: string, b: string)
    ensures Downcase(a + "_" + b) == Downcase(a) + "_" + Downcase(b)
  {
    DowncaseAppend(a + "_", b);
    DowncaseAppend(a, "_");
  }

  /** A class name of two camel-case words becomes the two words lower-cased
      and joined by an underscore, as `SproutTree` becomes `sprout_tree`. */
  lemma CamelCaseReference(a: string, b: string)
    requires |a| > 0 && |b| > 0 && ':' !in a && ':' !in b
    requires NoBoundary(a) && NoBoundary(b) && IsLowerOrDigit(a[|a| - 1]) && IsUpper(b[0])
    ensures ToReference(a + b) == Downcase(a) + "_" + Downcase(b)
  {
    assert ':' !in a + b;
    NoColonLastSegment(a + b);
    assert Underscore(a + b) == a + "_" + b by {
      UnderscoreAppend(a, b);
      UnderscoreNoBoundary(a);
      UnderscoreNoBoundary(b);
    }
    DowncaseJoin(a, b);
  }

  /** A namespace prefix never changes the reference name: only what follows
      the last `::` counts. */
  lemma QualifiedLastSegment(ns: string, n: string)
    requires NoSeparator(n) && (|n| > 0 ==> n[0] != ':')
    ensures LastSegment(ns + "::" + n) == n
  {
    var s := ns + "::" + n;
    assert SeparatorAt(s, |ns|);
    forall j | |ns| < j < |s|
      ensures !SeparatorAt(s, j)
    {
      if j >= |ns| + 2 {
        assert SeparatorAt(s, j) ==> SeparatorAt(n, j - |ns| - 2);
      }
    }
    match LastSeparator(s, |s| - 1)
    case NotFound =>
      assert false;
    case FoundAt(p) =>
      assert p == |ns|;
      assert s[p + 2..] == n;
  }

  lemma QualifiedReference(ns: string, n: string)
    requires NoSeparator(n) && (|n| > 0 ==> n[0] != ':')
    ensures ToReference(ns + "::" + n) == ToReference(n)
  {
    QualifiedLastSegment(ns, n);
    QualifiedLastSegment("", n);
    assert LastSegment(n) == n by {
      match LastSeparator(n, |n| - 1)
      case NotFound =>
      case FoundAt(p) =>
        assert false;
    }
  }

  /** `Model.table_name`: the class name under the library's namespace. */
  function TableName(className: string): (r: string)
    ensures |r| == |className| + 8 && r[..8] == "Shoden::"
    ensures r[8..] == className
  {
    "Shoden::" + className
  }

  /** Distinct classes never share a table. */
  lemma TableNameInjective(a: string, b: string)
    ensures TableName(a) == TableName(b) <==> a == b
  {
    if TableName(a) == TableName(b) {
      assert a == TableName(a)[8..];
    }
  }

  /** `Proxy#key`: the reference name of the parent class followed by `_id`. */
  function ForeignKey(parentClass: string): (k: string)
    ensures |k| >= 3 && k[|k| - 3..] == "_id"
    ensures k[..|k| - 3] == ToReference(parentClass)
    ensures k != "id" && k != "order"
  {
    var r := ToReference(parentClass);
    var k := r + "_id";
    assert k[|k| - 3..] == "_id";
    assert k[|k| - 1] == 'd';
    k
  }

  lemma TreeForeignKey()
    ensures ForeignKey("Tree") == "tree_id"
  {
    TreeReference();
  }
}
