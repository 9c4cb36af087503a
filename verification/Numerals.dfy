/** Positional numerals: big-endian digit strings, and the in-place multiply-and-add that converts between bases. */
module Numerals {
  predicate Digits(ds: seq<nat>, b: int)
    requires 2 <= b
  {
    forall i | 0 <= i < |ds| :: ds[i] < b
  }

  /** The number a digit string denotes, most significant digit first. */
  function Value(ds: seq<nat>, b: int): nat
    requires 2 <= b
  {
    if ds == [] then 0
    else
      Product(Value(ds[..|ds| - 1], b), b);
      Value(ds[..|ds| - 1], b) * b + ds[|ds| - 1]
  }

  /** The numeral of a number without leading zeros; zero is written as a single zero. */
  function Numeral(n: nat, b: int): (ds: seq<nat>)
    requires 2 <= b
    ensures Digits(ds, b) && Canonical(ds)
    ensures n > 0 ==> ds[0] != 0
  {
    if n < b then [n] else
      Quotient(n, b);
      Numeral(n / b, b) + [n % b]
  }

  predicate Canonical(ds: seq<nat>) {
    |ds| >= 1 && (|ds| == 1 || ds[0] != 0)
  }

  lemma {:induction false} Product(x: int, y: int)
    ensures 0 <= x && 0 <= y ==> 0 <= x * y
    ensures 1 <= x && 0 <= y ==> y <= x * y
    ensures x <= -1 && 0 <= y ==> x * y <= -y
  {
    assert (x - 1) * y == x * y - y;
    assert 1 <= x && 0 <= y ==> 0 <= (x - 1) * y;
    assert (x + 1) * y == x * y + y;
    assert x <= -1 && 0 <= y ==> (x + 1) * y <= 0;
  }

  lemma {:induction false} Quotient(n: nat, b: int)
    requires 2 <= b
    ensures n == (n / b) * b + n % b && 0 <= n % b < b
    ensures 0 <= n / b && (b <= n ==> 0 < n / b < n) && (n < b ==> n / b == 0)
  {
    var q := n / b;
    assert n == b * q + n % b;
    Product(q, b);
    assert b * q - 2 * q == q * (b - 2);
    Product(q, b - 2);
  }

  lemma {:induction false} QuotientIsUnique(q: nat, r: nat, b: int)
    requires 2 <= b && r < b
    ensures 0 <= q * b + r && (q * b + r) / b == q && (q * b + r) % b == r
  {
    Product(q, b);
    var n: int := q * b + r;
    Quotient(n, b);
    assert (n / b - q) * b == (n / b) * b - q * b;
    Product(n / b - q, b);
  }

  lemma {:induction false} NumeralDenotes(n: nat, b: int)
    requires 2 <= b
    ensures Value(Numeral(n, b), b) == n
  {
    if n < b {
      assert Numeral(n, b)[..0] == [];
    } else {
      Quotient(n, b);
      NumeralDenotes(n / b, b);
      var ds := Numeral(n, b);
      assert ds[..|ds| - 1] == Numeral(n / b, b);
    }
  }

  /** A numeral without leading zeros is the only one of its value. */
  lemma {:induction false} CanonicalIsNumeral(ds: seq<nat>, b: int)
    requires 2 <= b
    requires Digits(ds, b) && Canonical(ds)
    ensures Numeral(Value(ds, b), b) == ds
  {
    if |ds| == 1 {
      assert ds[..0] == [];
    } else {
      var high, low := ds[..|ds| - 1], ds[|ds| - 1];
      CanonicalIsNumeral(high, b);
      CanonicalIsPositive(high, b);
      Product(Value(high, b), b);
      AppendDigit(Value(high, b), low, b);
      assert ds == high + [low];
    }
  }

  lemma {:induction false} AppendDigit(high: nat, low: nat, b: int)
    requires 2 <= b && low < b && 1 <= high
    ensures 0 <= high * b + low && Numeral(high * b + low, b) == Numeral(high, b) + [low]
  {
    QuotientIsUnique(high, low, b);
    Product(high, b);
  }

  lemma {:induction false} CanonicalIsPositive(ds: seq<nat>, b: int)
    requires 2 <= b
    requires |ds| >= 1 && ds[0] != 0
    ensures Value(ds, b) >= 1
  {
    if |ds| == 1 {
      assert ds[..0] == [];
    } else {
      CanonicalIsPositive(ds[..|ds| - 1], b);
      Product(Value(ds[..|ds| - 1], b), b);
    }
  }

  // ---- leading zeros ----

  function StripZeros(ds: seq<nat>): seq<nat> {
    if |ds| > 1 && ds[0] == 0 then StripZeros(ds[1..]) else ds
  }

  lemma {:induction false} LeadingZero(ds: seq<nat>, b: int)
    requires 2 <= b
    ensures Value([0] + ds, b) == Value(ds, b)
  {
    var zds := [0] + ds;
    if ds == [] {
      assert zds[..0] == [];
    } else {
      LeadingZero(ds[..|ds| - 1], b);
      assert zds[..|zds| - 1] == [0] + ds[..|ds| - 1];
    }
  }

  lemma {:induction false} ValueIsZeroIff(ds: seq<nat>, b: int)
    requires 2 <= b
    ensures Value(ds, b) == 0 <==> forall i | 0 <= i < |ds| :: ds[i] == 0
  {
    if ds != [] {
      var high := ds[..|ds| - 1];
      ValueIsZeroIff(high, b);
      Product(Value(high, b), b);
      assert forall i | 0 <= i < |high| :: high[i] == ds[i];
    }
  }

  /** Writing a digit string's value down again drops its leading zeros and nothing else. */
  lemma {:induction false} NumeralOfValue(ds: seq<nat>, b: int)
    requires 2 <= b
    requires Digits(ds, b) && ds != []
    ensures Numeral(Value(ds, b), b) == StripZeros(ds)
  {
    if |ds| > 1 && ds[0] == 0 {
      assert ds == [0] + ds[1..];
      LeadingZero(ds[1..], b);
      NumeralOfValue(ds[1..], b);
    } else {
      CanonicalIsNumeral(ds, b);
    }
  }

  // ---- length ----

  lemma {:induction false} LongerIsLarger(m: nat, n: nat, b: int)
    requires 2 <= b
    requires m <= n
    ensures |Numeral(m, b)| <= |Numeral(n, b)|
  {
    if m >= b {
      Quotient(m, b);
      Quotient(n, b);
      assert (n / b - m / b) * b == (n / b) * b - (m / b) * b;
      Product(n / b - m / b, b);
      LongerIsLarger(m / b, n / b, b);
    }
  }

  // ---- little-endian digits ----

  function Reversed(ds: seq<nat>): (r: seq<nat>)
    ensures |r| == |ds|
  {
    if ds == [] then [] else Reversed(ds[1..]) + [ds[0]]
  }

  lemma {:induction false} ReversedLast(ds: seq<nat>, b: int)
    requires 2 <= b
    ensures Digits(ds, b) ==> Digits(Reversed(ds), b)
    ensures ds != [] ==> Reversed(ds)[0] == ds[|ds| - 1]
  {
    if ds != [] {
      ReversedLast(ds[1..], b);
    }
  }

  function LowFirst(ds: seq<nat>, b: int): nat
    requires 2 <= b
  {
    if ds == [] then 0
    else
      Product(LowFirst(ds[1..], b), b);
      ds[0] + LowFirst(ds[1..], b) * b
  }

  lemma {:induction false} LowFirstIsReversedValue(ds: seq<nat>, b: int)
    requires 2 <= b
    ensures Value(Reversed(ds), b) == LowFirst(ds, b)
  {
    if ds != [] {
      LowFirstIsReversedValue(ds[1..], b);
      var r := Reversed(ds);
      assert r[..|r| - 1] == Reversed(ds[1..]);
    }
  }

  // ---- multiply and add ----

  /** The digits of a carry that runs past the top digit. */
  function CarryDigits(carry: nat, b: int): seq<nat>
    requires 2 <= b
    decreases carry
  {
    if carry == 0 then [] else
      Quotient(carry, b);
      [carry % b] + CarryDigits(carry / b, b)
  }

  /** The little-endian digits of `LowFirst(ds) * factor + carry`, digit by digit. */
  function MultiplyAdd(ds: seq<nat>, factor: nat, carry: nat, b: int): seq<nat>
    requires 2 <= b
    decreases |ds|
  {
    if ds == [] then CarryDigits(carry, b)
    else
      Column(ds[0], factor, carry, b);
      [(ds[0] * factor + carry) % b] + MultiplyAdd(ds[1..], factor, (ds[0] * factor + carry) / b, b)
  }

  lemma {:induction false} Column(digit: nat, factor: nat, carry: nat, b: int)
    requires 2 <= b
    ensures var column := digit * factor + carry;
      column >= 0 && column / b >= 0 && 0 <= column % b < b && column == (column / b) * b + column % b
    ensures digit < b && carry < factor ==> (digit * factor + carry) / b < factor
  {
    Product(digit, factor);
    var column := digit * factor + carry;
    Quotient(column, b);
    CarryStaysSmall(digit, factor, carry, b, column / b, column % b);
  }

  lemma {:induction false} CarryStaysSmall(digit: int, factor: int, carry: int, b: int, q: int, r: int)
    requires digit * factor + carry == q * b + r && 0 <= r && 0 <= factor && 1 <= b
    ensures digit < b && carry < factor ==> q < factor
  {
    Product(b - 1 - digit, factor);
    assert (b - 1 - digit) * factor == b * factor - factor - digit * factor;
    Product(q - factor, b);
    assert (q - factor) * b == q * b - b * factor;
  }

  lemma {:induction false} CarryDigitsDenote(carry: nat, b: int)
    requires 2 <= b
    ensures LowFirst(CarryDigits(carry, b), b) == carry && Digits(CarryDigits(carry, b), b)
    ensures carry > 0 ==> var ds := CarryDigits(carry, b); ds != [] && ds[|ds| - 1] != 0
    decreases carry
  {
    if carry > 0 {
      Quotient(carry, b);
      CarryDigitsDenote(carry / b, b);
      var ds := CarryDigits(carry, b);
      assert ds[1..] == CarryDigits(carry / b, b);
      if carry / b == 0 {
        assert ds == [carry % b];
      }
    }
  }

  lemma {:induction false} MultiplyAddDenotes(ds: seq<nat>, factor: nat, carry: nat, b: int)
    requires 2 <= b
    requires Digits(ds, b)
    ensures LowFirst(MultiplyAdd(ds, factor, carry, b), b) == LowFirst(ds, b) * factor + carry
    ensures Digits(MultiplyAdd(ds, factor, carry, b), b)
    decreases |ds|
  {
    if ds == [] {
      CarryDigitsDenote(carry, b);
    } else {
      Column(ds[0], factor, carry, b);
      var column: int := ds[0] * factor + carry;
      MultiplyAddDenotes(ds[1..], factor, column / b, b);
      var out := MultiplyAdd(ds, factor, carry, b);
      assert out[1..] == MultiplyAdd(ds[1..], factor, column / b, b);
      Distribute(ds[0], LowFirst(ds[1..], b), factor, column / b, b);
    }
  }

  lemma {:induction false} Distribute(low: int, high: int, factor: int, carry: int, b: int)
    ensures (low + high * b) * factor == low * factor + (high * factor) * b
    ensures (high * factor + carry) * b == (high * factor) * b + carry * b
  {
    assert (low + high * b) * factor == low * factor + (high * b) * factor;
    assert (high * b) * factor == (high * factor) * b;
  }

  /** No leading zero appears: a top digit that overflows into zero always leaves a carry behind it. */
  lemma {:induction false} MultiplyAddStaysCanonical(ds: seq<nat>, factor: nat, carry: nat, b: int)
    requires 2 <= b
    requires Digits(ds, b) && ds != [] && 1 <= factor
    requires ds[|ds| - 1] != 0 || |ds| == 1
    ensures var out := MultiplyAdd(ds, factor, carry, b);
      out != [] && (out[|out| - 1] != 0 || |out| == 1)
    decreases |ds|
  {
    Column(ds[0], factor, carry, b);
    var column: int := ds[0] * factor + carry;
    var rest := MultiplyAdd(ds[1..], factor, column / b, b);
    if |ds| == 1 {
      CarryDigitsDenote(column / b, b);
      assert rest == CarryDigits(column / b, b);
    } else {
      MultiplyAddStaysCanonical(ds[1..], factor, column / b, b);
      TopDigitSurvives(ds[1..], factor, column / b, b);
    }
  }

  lemma {:induction false} TopDigitSurvives(ds: seq<nat>, factor: nat, carry: nat, b: int)
    requires 2 <= b
    requires Digits(ds, b) && ds != [] && 1 <= factor && ds[|ds| - 1] != 0
    ensures var out := MultiplyAdd(ds, factor, carry, b); out != [] && out[|out| - 1] != 0
    decreases |ds|
  {
    Column(ds[0], factor, carry, b);
    var column: int := ds[0] * factor + carry;
    if |ds| == 1 {
      CarryDigitsDenote(column / b, b);
      Product(ds[0], factor);
      Quotient(column, b);
    } else {
      TopDigitSurvives(ds[1..], factor, column / b, b);
    }
  }

  /** One conversion step: multiplying in place and adding a digit is appending that digit to the number read so far. */
  lemma {:induction false} AbsorbDigit(ds: seq<nat>, read: seq<nat>, digit: nat, factor: int, b: int)
    requires 2 <= factor && 2 <= b
    requires Digits(ds, b) && ds != [] && (ds[|ds| - 1] != 0 || |ds| == 1)
    requires LowFirst(ds, b) == Value(read, factor)
    ensures LowFirst(MultiplyAdd(ds, factor, digit, b), b) == Value(read + [digit], factor)
  {
    MultiplyAddDenotes(ds, factor, digit, b);
    assert (read + [digit])[..|read|] == read;
  }

  /** The in-place conversion step: a carry loop over the digits, then a loop that pushes what is left of the carry. */
  method Absorb(start: seq<nat>, factor: int, digit: nat, b: int) returns (digits: seq<nat>)
    requires 2 <= factor && 2 <= b
    requires Digits(start, b) && digit < factor
    ensures digits == MultiplyAdd(start, factor, digit, b)
  {
    digits := start;
    var carry := digit;
    for j := 0 to |digits|
      invariant |digits| == |start| && 0 <= carry < factor
      invariant digits[j..] == start[j..]
      invariant MultiplyAdd(start, factor, digit, b) == digits[..j] + MultiplyAdd(start[j..], factor, carry, b)
    {
      Column(digits[j], factor, carry, b);
      var value := digits[j] * factor + carry;
      assert start[j..][0] == digits[j] && start[j..][1..] == start[j + 1..];
      ghost var before := digits[..j];
      digits := digits[j := value % b];
      carry := value / b;
      assert digits[..j + 1] == before + [value % b];
    }
    assert start[|start|..] == [] && digits[..|start|] == digits;
    while carry > 0
      invariant carry >= 0 && MultiplyAdd(start, factor, digit, b) == digits + CarryDigits(carry, b)
    {
      Quotient(carry, b);
      digits := digits + [carry % b];
      carry := carry / b;
    }
  }

  /** Converts a numeral from one base to another by absorbing its digits one at a time. */
  method Convert(read: seq<nat>, factor: int, b: int) returns (digits: seq<nat>)
    requires 2 <= factor && 2 <= b
    requires Digits(read, factor)
    ensures Reversed(digits) == Numeral(Value(read, factor), b)
  {
    digits := [0];
    for i := 0 to |read|
      invariant Digits(digits, b) && digits != [] && (digits[|digits| - 1] != 0 || |digits| == 1)
      invariant LowFirst(digits, b) == Value(read[..i], factor)
    {
      AbsorbDigit(digits, read[..i], read[i], factor, b);
      MultiplyAddDenotes(digits, factor, read[i], b);
      MultiplyAddStaysCanonical(digits, factor, read[i], b);
      assert read[..i + 1] == read[..i] + [read[i]];
      digits := Absorb(digits, factor, read[i], b);
    }
    assert read[..|read|] == read;
    ReversedLast(digits, b);
    LowFirstIsReversedValue(digits, b);
    CanonicalIsNumeral(Reversed(digits), b);
  }
}
