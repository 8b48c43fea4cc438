/**
 * Numbers, and the C library calls that convert them.
 *
 * A double is modelled as a real number, so NaN and the infinities are not
 * part of the model. strtod and sprintf with "%1.15g" and "%1.17g" are
 * parameters, of which only what the C standard promises is known.
 */
module CLibrary {
  import opened Bytes

  const INT_MAX: int := 0x7FFF_FFFF
  const INT_MIN: int := -0x8000_0000
  type int32 = n: int | INT_MIN <= n <= INT_MAX

  predicate IsDigit(b: byte) { 48 <= b <= 57 }

  /** The bytes the number scanner collects before it calls strtod. */
  predicate NumberByte(b: byte) {
    IsDigit(b) || b == 43 || b == 45 || b == 46 || b == 69 || b == 101
  }

  predicate AllNumberBytes(s: bytes) {
    forall i :: 0 <= i < |s| ==> NumberByte(s[i])
  }

  function DigitsEnd(s: bytes, i: nat): (j: nat)
    requires i <= |s|
    ensures i <= j <= |s|
    ensures forall k :: i <= k < j ==> IsDigit(s[k])
    ensures j < |s| ==> !IsDigit(s[j])
    decreases |s| - i
  {
    if i < |s| && IsDigit(s[i]) then DigitsEnd(s, i + 1) else i
  }

  /** Section 6 of RFC 8259: [minus] int [frac] [exp]. */
  predicate JsonNumber(s: bytes) {
    var i := if |s| > 0 && s[0] == MINUS then 1 else 0;
    i < |s| && IsDigit(s[i]) &&
    FractionFrom(s, if s[i] == ZERO then i + 1 else DigitsEnd(s, i))
  }

  predicate FractionFrom(s: bytes, i: nat)
    requires i <= |s|
  {
    if i < |s| && s[i] == 46 then
      i + 1 < |s| && IsDigit(s[i + 1]) && ExponentFrom(s, DigitsEnd(s, i + 1))
    else
      ExponentFrom(s, i)
  }

  predicate ExponentFrom(s: bytes, i: nat)
    requires i <= |s|
  {
    if i < |s| && (s[i] == 69 || s[i] == 101) then
      var j := if i + 1 < |s| && (s[i + 1] == 43 || s[i + 1] == 45) then i + 2 else i + 1;
      j < |s| && IsDigit(s[j]) && DigitsEnd(s, j) == |s|
    else
      i == |s|
  }

  lemma JsonNumberBytes(s: bytes)
    requires JsonNumber(s)
    ensures s != [] && AllNumberBytes(s) && (IsDigit(s[0]) || s[0] == MINUS)
  {
  }

  function Digits(n: nat): (r: bytes)
    ensures |r| > 0
    ensures forall i :: 0 <= i < |r| ==> IsDigit(r[i])
    ensures r[0] == ZERO ==> n == 0 && |r| == 1
  {
    if n < 10 then [48 + n] else Digits(n / 10) + [48 + n % 10]
  }

  /** What sprintf("%d") writes. */
  function Decimal(n: int): bytes {
    if n < 0 then [MINUS] + Digits(-n) else Digits(n)
  }

  lemma DigitsEndAll(s: bytes, i: nat)
    requires i <= |s| && forall k :: i <= k < |s| ==> IsDigit(s[k])
    ensures DigitsEnd(s, i) == |s|
  {
  }

  lemma DecimalIsJsonNumber(n: int)
    ensures JsonNumber(Decimal(n))
  {
    var s := Decimal(n);
    var i := if n < 0 then 1 else 0;
    assert forall k :: i <= k < |s| ==> IsDigit(s[k]);
    if s[i] != ZERO {
      DigitsEndAll(s, i);
    }
  }

  /** The value of a run of digits. */
  function DigitsValue(s: bytes): int {
    if s == [] then 0 else 10 * DigitsValue(s[..|s| - 1]) + (s[|s| - 1] as int - 48)
  }

  function DecimalValue(s: bytes): int {
    if s != [] && s[0] == MINUS then -DigitsValue(s[1..]) else DigitsValue(s)
  }

  lemma {:induction false} DigitsValueOfDigits(n: nat)
    ensures DigitsValue(Digits(n)) == n
  {
    var r := Digits(n);
    if n < 10 {
      assert r[..0] == [];
    } else {
      DigitsValueOfDigits(n / 10);
      assert r[..|r| - 1] == Digits(n / 10);
    }
  }

  lemma DecimalValueOfDecimal(n: int)
    ensures DecimalValue(Decimal(n)) == n
  {
    if n < 0 {
      DigitsValueOfDigits(-n);
      assert Decimal(n)[1..] == Digits(-n);
    } else {
      DigitsValueOfDigits(n);
    }
  }

  datatype Strtod = Strtod(consumed: nat, value: real)
  datatype Calls = Calls(strtod: bytes -> Strtod, format15: real -> bytes, format17: real -> bytes)

  /**
   * What the model uses of the C library: strtod never reads past its
   * argument, consumes a whole JSON number, and is exact on what "%d" writes;
   * "%g" writes a JSON number.
   */
  ghost predicate Sound(c: Calls) {
    && (forall run :: c.strtod(run).consumed <= |run|)
    && (forall run :: JsonNumber(run) ==> c.strtod(run).consumed == |run|)
    && (forall run, n: int32 :: run == Decimal(n) ==> c.strtod(run).value == n as real)
    && (forall d :: JsonNumber(c.format15(d)) && JsonNumber(c.format17(d)))
  }

  /** One library with these properties, so that they are known to be consistent. */
  function SimpleCalls(): (c: Calls)
    ensures Sound(c)
  {
    var c := Calls(
      run => Strtod(if JsonNumber(run) then |run| else 0, DecimalValue(run) as real),
      d => Decimal(0),
      d => Decimal(0));
    assert forall run, n: int32 :: run == Decimal(n) ==> c.strtod(run).value == n as real by {
      forall run, n: int32 | run == Decimal(n) ensures c.strtod(run).value == n as real {
        DecimalValueOfDecimal(n);
      }
    }
    assert forall d :: JsonNumber(c.format15(d)) && JsonNumber(c.format17(d)) by {
      DecimalIsJsonNumber(0);
    }
    c
  }

  type CLib = c: Calls | Sound(c) ghost witness SimpleCalls()

  function Truncate(d: real): int {
    if d >= 0.0 then d.Floor else -((-d).Floor)
  }

  /** The int that goes with a double: truncated, and saturated at the ends. */
  function Saturate(d: real): (n: int32)
    ensures d.Floor as real == d && INT_MIN <= d.Floor <= INT_MAX ==> n == d.Floor
  {
    if d >= INT_MAX as real then INT_MAX
    else if d <= INT_MIN as real then INT_MIN
    else Truncate(d)
  }

  function Abs(d: real): real {
    if d < 0.0 then -d else d
  }

  const DBL_EPSILON: real := 1.0 / 4503599627370496.0

  /** compare_double: equal up to rounding. */
  predicate Near(a: real, b: real) {
    Abs(a - b) <= (if Abs(a) > Abs(b) then Abs(a) else Abs(b)) * DBL_EPSILON
  }

  /** print_number: "%d" when the double is the int, otherwise 15 digits if they give the double back, and 17 if not. */
  function NumberText(lib: CLib, d: real): (r: bytes)
    ensures JsonNumber(r)
  {
    if d == Saturate(d) as real then
      DecimalIsJsonNumber(Saturate(d));
      Decimal(Saturate(d))
    else if Near(lib.strtod(lib.format15(d)).value, d) then
      lib.format15(d)
    else
      lib.format17(d)
  }

  /** strtod gives back the number that was printed. */
  predicate Recovered(lib: CLib, d: real) {
    lib.strtod(NumberText(lib, d)).value == d
  }

  lemma IntegersAreRecovered(lib: CLib, n: int32)
    ensures Recovered(lib, n as real)
  {
    assert NumberText(lib, n as real) == Decimal(n);
  }
}
