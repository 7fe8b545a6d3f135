/**
  The Ruby values a record's attributes hold, and the textual conversions the
  library relies on: Ruby's `Integer#to_s` and `String#to_i`, the text a value
  becomes when it is sent as a statement parameter or extracted from a JSON
  document with `->>`, and Postgres' parsing of an `int4` parameter.
 */
module Values {
  import opened Errors

  /** Attribute names. Ruby distinguishes the symbol `:name` from the string
      `"name"`; every place the library uses a name treats the two alike, so
      the model keeps only the text. */
  type Key = string

  /** The values that travel between records, JSON documents and statement
      parameters: nil, booleans, integers and strings. */
  datatype Value = Nil | Bool(b: bool) | Int(i: int) | Str(s: string)

  /** Ruby truthiness: everything except `nil` and `false`. */
  predicate Truthy(v: Value) {
    !(v.Nil? || v == Bool(false))
  }

  predicate IsDigit(c: char) {
    '0' <= c <= '9'
  }

  predicate AllDigits(s: string) {
    forall i :: 0 <= i < |s| ==> IsDigit(s[i])
  }

  function DigitValue(c: char): (d: nat)
    requires IsDigit(c)
    ensures d < 10
  {
    (c as int - '0' as int) as nat
  }

  function DigitChar(d: nat): (c: char)
    requires d < 10
    ensures IsDigit(c) && DigitValue(c) == d
  {
    ('0' as int + d) as char
  }

  /** The decimal digits of a natural number, most significant first. */
  function Digits(n: nat): (s: string)
    ensures |s| > 0 && AllDigits(s)
    decreases n
  {
    if n < 10 then [DigitChar(n)] else Digits(n / 10) + [DigitChar(n % 10)]
  }

  /** The number a non-empty or empty run of decimal digits denotes. */
  function DigitsValue(s: string): nat
    requires AllDigits(s)
  {
    if |s| == 0 then 0 else DigitsValue(s[..|s| - 1]) * 10 + DigitValue(s[|s| - 1])
  }

  /** Ruby's `Integer#to_s`. */
  function Decimal(n: int): string {
    if n < 0 then "-" + Digits(-n) else Digits(n)
  }

  lemma {:induction false} DigitsRoundTrip(n: nat)
    ensures DigitsValue(Digits(n)) == n
    decreases n
  {
    if n >= 10 {
      DigitsRoundTrip(n / 10);
      var s := Digits(n / 10) + [DigitChar(n % 10)];
      assert s[..|s| - 1] == Digits(n / 10);
    }
  }

  /** The white space Ruby's `String#to_i` and Postgres' integer input skip. */
  predicate IsSpace(c: char) {
    c == ' ' || c == '\t' || c == '\n' || c == '\U{000B}' || c == '\U{000C}' || c == '\r'
  }

  function SkipSpaces(s: string): (r: string)
    ensures |r| <= |s| && r == s[|s| - |r|..]
    ensures |r| > 0 ==> !IsSpace(r[0])
  {
    if |s| > 0 && IsSpace(s[0]) then SkipSpaces(s[1..]) else s
  }

  function TrimTrailingSpaces(s: string): (r: string)
    ensures |r| <= |s| && r == s[..|r|]
    ensures |r| > 0 ==> !IsSpace(r[|r| - 1])
  {
    if |s| > 0 && IsSpace(s[|s| - 1]) then TrimTrailingSpaces(s[..|s| - 1]) else s
  }

  /** The digits of the longest prefix of `s` that Ruby reads as a decimal
      numeral: decimal digits, where a single underscore may stand between
      two digits; the underscores are dropped. */
  function LeadingDigits(s: string): (p: string)
    ensures AllDigits(p) && |p| <= |s|
    ensures |p| > 0 <==> |s| > 0 && IsDigit(s[0])
  {
    if |s| == 0 || !IsDigit(s[0]) then []
    else if |s| > 2 && s[1] == '_' && IsDigit(s[2]) then [s[0]] + LeadingDigits(s[2..])
    else [s[0]] + LeadingDigits(s[1..])
  }

  /** The numeral after the optional `0d` or `0D` radix prefix, which base 10
      accepts right after the sign. */
  function Unprefixed(t: string): (u: string)
    ensures |u| <= |t| && u == t[|t| - |u|..]
  {
    if |t| > 1 && t[0] == '0' && (t[1] == 'd' || t[1] == 'D') then t[2..] else t
  }

  /** Ruby's `String#to_i`: leading white space, an optional sign, an
      optional `0d` prefix, then the longest numeral; anything after it is
      ignored and no digits at all read as 0. */
  function StringToI(s: string): int {
    var t := SkipSpaces(s);
    if |t| > 0 && t[0] == '-' then -(DigitsValue(LeadingDigits(Unprefixed(t[1..]))) as int)
    else if |t| > 0 && t[0] == '+' then DigitsValue(LeadingDigits(Unprefixed(t[1..])))
    else DigitsValue(LeadingDigits(Unprefixed(t)))
  }

  /** A numeral that starts with neither white space nor a sign is read from
      its first character. */
  lemma UnsignedToI(t: string)
    requires |t| > 0 && !IsSpace(t[0]) && t[0] != '-' && t[0] != '+'
    ensures StringToI(t) == DigitsValue(LeadingDigits(Unprefixed(t)))
  {
    SkipNoSpaces(t);
  }

  /** Ruby's `to_i` on a value: `nil.to_i` is 0 and booleans have no `to_i`. */
  function ToI(v: Value): (r: Result<int>)
    ensures r.Err? <==> v.Bool?
    ensures v.Int? ==> r == Ok(v.i)
    ensures v.Nil? ==> r == Ok(0)
  {
    match v
    case Nil => Ok(0)
    case Bool(_) => Err(NoMethodError("to_i"))
    case Int(i) => Ok(i)
    case Str(s) => Ok(StringToI(s))
  }

  lemma {:induction false} LeadingDigitsOfDigits(s: string)
    requires AllDigits(s)
    ensures LeadingDigits(s) == s
  {
    if |s| > 0 {
      LeadingDigitsOfDigits(s[1..]);
    }
  }

  /** Ruby reads back every integer it printed. */
  lemma DecimalToI(n: int)
    ensures StringToI(Decimal(n)) == n
  {
    var m: nat := if n < 0 then -n else n;
    DigitsRoundTrip(m);
    NumeralToI(Digits(m));
  }

  /** A run of digits, signed with `-` or not, reads as the number it
      denotes. */
  lemma NumeralToI(d: string)
    requires |d| > 0 && AllDigits(d)
    ensures StringToI(d) == DigitsValue(d)
    ensures StringToI("-" + d) == -(DigitsValue(d) as int)
  {
    NumeralReadBack(d);
    UnsignedToI(d);
    NegatedToI(d);
  }

  lemma NumeralReadBack(d: string)
    requires |d| > 0 && AllDigits(d)
    ensures IsDigit(d[0])
    ensures DigitsValue(LeadingDigits(Unprefixed(d))) == DigitsValue(d)
  {
    LeadingDigitsOfDigits(d);
    assert Unprefixed(d) == d by {
      assert |d| > 1 ==> IsDigit(d[1]);
    }
  }

  /** `-` then a numeral is the negated numeral. */
  lemma NegatedToI(d: string)
    ensures StringToI("-" + d) == -(DigitsValue(LeadingDigits(Unprefixed(d))) as int)
  {
    var t := "-" + d;
    assert t[0] == '-' && !IsSpace(t[0]);
    SkipNoSpaces(t);
    assert t[1..] == d;
    assert SkipSpaces(t)[1..] == d;
  }

  /** `to_i` on the decimal text of an integer is that integer. */
  lemma DecimalTextToI(n: int)
    ensures ToI(Str(Decimal(n))) == Ok(n)
  {
    DecimalToI(n);
  }

  /** An underscore between two runs of digits only groups them:
      `"1_000".to_i` is 1000. */
  lemma {:induction false} LeadingDigitsGrouped(a: string, b: string)
    requires |a| > 0 && AllDigits(a) && |b| > 0 && AllDigits(b)
    ensures LeadingDigits(a + "_" + b) == a + b
    decreases |a|
  {
    var s := a + "_" + b;
    if |a| == 1 {
      assert s[1] == '_' && s[2] == b[0];
      LeadingDigitsSkip(s);
      assert s[2..] == b;
      LeadingDigitsOfDigits(b);
      assert [s[0]] == a;
    } else {
      assert s[1] == a[1];
      LeadingDigitsStep(s);
      assert s[1..] == a[1..] + "_" + b;
      LeadingDigitsGrouped(a[1..], b);
      assert a == [a[0]] + a[1..];
    }
  }

  /** A digit not followed by an underscore is taken on its own. */
  lemma LeadingDigitsStep(s: string)
    requires |s| > 1 && IsDigit(s[0]) && s[1] != '_'
    ensures LeadingDigits(s) == [s[0]] + LeadingDigits(s[1..])
  { }

  /** An underscore between two digits is dropped. */
  lemma LeadingDigitsSkip(s: string)
    requires |s| > 2 && IsDigit(s[0]) && s[1] == '_' && IsDigit(s[2])
    ensures LeadingDigits(s) == [s[0]] + LeadingDigits(s[2..])
  { }

  lemma UnderscoreGroupsDigits(a: string, b: string)
    requires |a| > 0 && AllDigits(a) && |b| > 0 && AllDigits(b)
    ensures ToI(Str(a + "_" + b)) == Ok(DigitsValue(a + b))
  {
    var s := a + "_" + b;
    LeadingDigitsGrouped(a, b);
    assert s[0] == a[0];
    assert s[1] == if |a| == 1 then '_' else a[1];
    UnsignedToI(s);
  }

  /** Base 10 accepts the radix prefix `0d` or `0D`: `"0d12".to_i` is 12. */
  lemma RadixPrefixSkipped(p: string, ds: string)
    requires p == "0d" || p == "0D"
    requires |ds| > 0 && AllDigits(ds)
    ensures ToI(Str(p + ds)) == Ok(DigitsValue(ds))
  {
    var s := p + ds;
    assert s[0] == '0' && s[1] == p[1] && s[2..] == ds;
    UnsignedToI(s);
    LeadingDigitsOfDigits(ds);
  }


  lemma DecimalInjective(a: int, b: int)
    ensures Decimal(a) == Decimal(b) <==> a == b
  {
    if Decimal(a) == Decimal(b) {
      DecimalToI(a);
      DecimalToI(b);
    }
  }

  /** The text a value becomes as a statement parameter (the driver sends
      `to_s`, and nil as SQL NULL), which is also the text `->>` extracts from
      the JSON document `to_json` wrote for it. `None` is SQL NULL. */
  function Text(v: Value): (t: Option<string>)
    ensures t.None? <==> v.Nil?
    ensures v.Str? ==> t == Some(v.s)
  {
    match v
    case Nil => None
    case Bool(b) => Some(if b then "true" else "false")
    case Int(i) => Some(Decimal(i))
    case Str(s) => Some(s)
  }

  const Int4Min: int := -0x8000_0000
  const Int4Max: int := 0x7FFF_FFFF

  predicate InInt4(n: int) {
    Int4Min <= n <= Int4Max
  }

  /** Postgres' input function for `int4`: surrounding white space, an
      optional sign, at least one digit and nothing else, within range.
      `None` is the "invalid input syntax" or "out of range" error. */
  function PgInt4(s: string): (r: Option<int>)
    ensures r.Some? ==> InInt4(r.value)
  {
    var t := TrimTrailingSpaces(SkipSpaces(s));
    var negative := |t| > 0 && t[0] == '-';
    var body := if |t| > 0 && (t[0] == '-' || t[0] == '+') then t[1..] else t;
    if |body| == 0 || !AllDigits(body) then None
    else
      var n := if negative then -(DigitsValue(body) as int) else DigitsValue(body);
      if InInt4(n) then Some(n) else None
  }

  /** What `Integer#to_s` prints: an optional minus sign, then the digits of
      the magnitude; no white space at either end. */
  lemma DecimalShape(n: int)
    ensures var d := Decimal(n);
      && |d| > 0 && !IsSpace(d[0]) && !IsSpace(d[|d| - 1])
      && (n < 0 ==> d[0] == '-' && d[1..] == Digits(-n))
      && (n >= 0 ==> d == Digits(n) && IsDigit(d[0]))
  {
    if n < 0 {
      assert ("-" + Digits(-n))[1..] == Digits(-n);
    }
  }

  lemma SkipNoSpaces(s: string)
    requires |s| > 0 && !IsSpace(s[0])
    ensures SkipSpaces(s) == s
  {
  }

  lemma TrimNoSpaces(s: string)
    requires |s| > 0 && !IsSpace(s[|s| - 1])
    ensures TrimTrailingSpaces(s) == s
  {
  }

  /** Postgres reads back every `int4` Ruby prints, and rejects every other
      integer as out of range. */
  lemma DecimalToPgInt4(n: int)
    ensures PgInt4(Decimal(n)) == if InInt4(n) then Some(n) else None
  {
    var d := Decimal(n);
    DecimalShape(n);
    SkipNoSpaces(d);
    TrimNoSpaces(d);
    assert TrimTrailingSpaces(SkipSpaces(d)) == d;
    if n < 0 {
      NegativeDecimalBody(n);
    } else {
      DigitsRoundTrip(n);
      assert d[0] != '-' && d[0] != '+';
    }
  }

  lemma NegativeDecimalBody(n: int)
    requires n < 0
    ensures var d := Decimal(n);
      |d| > 1 && d[0] == '-' && AllDigits(d[1..]) && -(DigitsValue(d[1..]) as int) == n
  {
    DecimalShape(n);
    DigitsRoundTrip(-n);
  }

  /** Two integers are sent as the same text exactly when they are equal. */
  lemma IntTextInjective(a: int, b: int)
    ensures Text(Int(a)) == Text(Int(b)) <==> a == b
  {
    DecimalInjective(a, b);
  }
}
