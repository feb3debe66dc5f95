/**
 * Values held in records, the error kinds of the engine, and the few Python
 * behaviours of values the engine relies on: ordering comparisons (which raise
 * TypeError across kinds), `str(v)`, ASCII `lower()` and the substring test.
 */
module Values {

  datatype Option<+T> = None | Some(value: T)

  /** The ways an engine operation fails. `Validation`, `TableNotFound` and
      `EngineError` are ValidationError, TableNotFoundError and the generic
      ADBError; `TypeMismatch` is the TypeError Python raises when a range test
      orders values of different kinds; `Raised` is any exception raised by
      caller code inside a transaction body. */
  datatype Error = Validation | TableNotFound | EngineError | TypeMismatch | Raised

  datatype Result<+T> = Ok(value: T) | Err(error: Error)

  /** A field value: None, a boolean, an integer or a string. */
  datatype Value = Null | Bool(b: bool) | Int(i: int) | Str(s: string)

  /** A record: field name to value. */
  type Record = map<string, Value>

  predicate IsNumber(v: Value) { v.Int? || v.Bool? }

  /** Python's bool is an int: False is 0 and True is 1 when ordered. */
  function NumberOf(v: Value): int
    requires IsNumber(v)
  {
    if v.Int? then v.i else if v.b then 1 else 0
  }

  function Sign(n: int): int { if n < 0 then -1 else if n == 0 then 0 else 1 }

  /** Lexicographic comparison of strings by code point, as Python orders str:
      -1, 0 or 1 as `x` is below, equal to or above `y`. */
  function StrCompare(x: string, y: string): (c: int)
    ensures -1 <= c <= 1
  {
    if x == [] then (if y == [] then 0 else -1)
    else if y == [] then 1
    else if x[0] < y[0] then -1
    else if y[0] < x[0] then 1
    else StrCompare(x[1..], y[1..])
  }

  /** StrCompare is zero exactly on equal strings. */
  lemma {:induction false} StrCompareZeroIffEqual(x: string, y: string)
    ensures StrCompare(x, y) == 0 <==> x == y
  {
    if x != [] && y != [] && x[0] == y[0] {
      StrCompareZeroIffEqual(x[1..], y[1..]);
      assert x == [x[0]] + x[1..] && y == [y[0]] + y[1..];
    }
  }

  /** Swapping the operands negates the comparison, so `x < y` and `y > x` agree. */
  lemma {:induction false} StrCompareAntisymmetric(x: string, y: string)
    ensures StrCompare(y, x) == -StrCompare(x, y)
  {
    if x != [] && y != [] && x[0] == y[0] {
      StrCompareAntisymmetric(x[1..], y[1..]);
    }
  }

  /** The string order is transitive. */
  lemma {:induction false} StrCompareTransitive(x: string, y: string, z: string)
    requires StrCompare(x, y) < 0 && StrCompare(y, z) < 0
    ensures StrCompare(x, z) < 0
  {
    if x != [] && y != [] && z != [] && x[0] == y[0] && y[0] == z[0] {
      StrCompareTransitive(x[1..], y[1..], z[1..]);
    }
  }

  /** Python's three-way ordering of two values: None where Python raises
      TypeError (a string against a number, or anything against None). */
  function Compare(a: Value, b: Value): (r: Option<int>)
    ensures r.Some? <==> (IsNumber(a) && IsNumber(b)) || (a.Str? && b.Str?)
    ensures r.Some? ==> -1 <= r.value <= 1
  {
    if IsNumber(a) && IsNumber(b) then Some(Sign(NumberOf(a) - NumberOf(b)))
    else if a.Str? && b.Str? then Some(StrCompare(a.s, b.s))
    else None
  }

  /** The ordering is consistent with equality on values of one kind. */
  lemma CompareZeroOnEqual(a: Value)
    requires IsNumber(a) || a.Str?
    ensures Compare(a, a) == Some(0)
  {
    if a.Str? { StrCompareZeroIffEqual(a.s, a.s); }
  }

  /** Decimal digits of a natural number, most significant first. */
  function NatToDecimal(n: nat): (s: string)
    ensures |s| >= 1
    ensures forall k :: 0 <= k < |s| ==> '0' <= s[k] <= '9'
  {
    if n < 10 then [Digit(n)] else NatToDecimal(n / 10) + [Digit(n % 10)]
  }

  function Digit(d: nat): (c: char)
    requires d < 10
    ensures '0' <= c <= '9'
  {
    "0123456789"[d]
  }

  function DigitValue(c: char): nat
  {
    if '0' <= c <= '9' then (c as int - '0' as int) as nat else 0
  }

  /** Reads back a string of decimal digits. */
  function DecimalToNat(s: string): nat
  {
    if s == [] then 0 else DecimalToNat(s[..|s| - 1]) * 10 + DigitValue(s[|s| - 1])
  }

  /** Printing a number and reading it back gives the number. */
  lemma {:induction false} DecimalRoundTrip(n: nat)
    ensures DecimalToNat(NatToDecimal(n)) == n
  {
    var s := NatToDecimal(n);
    if n < 10 {
      assert s[..|s| - 1] == [];
    } else {
      DecimalRoundTrip(n / 10);
      assert s[..|s| - 1] == NatToDecimal(n / 10);
    }
  }

  /** Python's `str(v)`. */
  function PyStr(v: Value): (r: string)
    ensures v.Int? && v.i >= 0 ==> DecimalToNat(r) == v.i
    ensures v.Int? && v.i < 0 ==> |r| >= 2 && r[0] == '-' && DecimalToNat(r[1..]) == -v.i
  {
    match v
    case Null => "None"
    case Bool(b) => if b then "True" else "False"
    case Int(i) =>
      if i < 0 then
        var digits := NatToDecimal(-i);
        DecimalRoundTrip(-i);
        assert (['-'] + digits)[1..] == digits;
        ['-'] + digits
      else
        DecimalRoundTrip(i);
        NatToDecimal(i)
    case Str(s) => s
  }

  function LowerChar(c: char): char
  {
    if 'A' <= c <= 'Z' then (c as int + 32) as char else c
  }

  /** ASCII lower-casing; Python's `str.lower()` on the ASCII range. */
  function Lower(s: string): (r: string)
    ensures |r| == |s|
    ensures forall k :: 0 <= k < |s| ==> r[k] == LowerChar(s[k])
  {
    if s == [] then [] else [LowerChar(s[0])] + Lower(s[1..])
  }

  /** Lower-casing twice is lower-casing once. */
  lemma LowerIdempotent(s: string)
    ensures Lower(Lower(s)) == Lower(s)
  {
  }

  /** Python's `p in s` on strings: `p` occurs in `s` at some offset. */
  predicate Contains(s: string, p: string)
    decreases |s|
  {
    (|p| <= |s| && s[..|p|] == p) || (s != [] && Contains(s[1..], p))
  }

  /** `p` occurs in `s` starting at offset `k`. */
  predicate OccursAt(s: string, p: string, k: int)
  {
    0 <= k && k + |p| <= |s| && s[k..k + |p|] == p
  }

  /** The recursive substring test finds exactly the offsets at which `p` occurs. */
  lemma {:induction false} ContainsIffOccurs(s: string, p: string)
    ensures Contains(s, p) <==> exists k :: OccursAt(s, p, k)
    decreases |s|
  {
    if |p| <= |s| && s[..|p|] == p {
      assert OccursAt(s, p, 0);
    }
    if s != [] {
      ContainsIffOccurs(s[1..], p);
      if Contains(s[1..], p) {
        var k :| OccursAt(s[1..], p, k);
        assert OccursAt(s, p, k + 1);
      }
      if exists k :: OccursAt(s, p, k) {
        var k :| OccursAt(s, p, k);
        if k > 0 {
          assert OccursAt(s[1..], p, k - 1);
        }
      }
    } else {
      if exists k :: OccursAt(s, p, k) {
        var k :| OccursAt(s, p, k);
        assert p == [] && s[..|p|] == p;
      }
    }
  }
}
