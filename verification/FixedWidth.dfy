/** Machine integers of the compiler: kinds, ranges, two's-complement wrapping and
    the 128-bit image through which the evaluator compares integers of different kinds. */
module FixedWidth {
  /** USize carries the pointer width it was created with; its payload is always 64 bits wide. */
  datatype IntKind =
    | I8 | I16 | I32 | I64 | I128
    | U8 | U16 | U32 | U64 | U128
    | USize(bits: nat)

  const TWO_TO_128: int := 0x1_0000_0000_0000_0000_0000_0000_0000_0000

  type Word128 = x: int | 0 <= x < 0x1_0000_0000_0000_0000_0000_0000_0000_0000

  predicate Signed(k: IntKind) {
    k.I8? || k.I16? || k.I32? || k.I64? || k.I128?
  }

  function Width(k: IntKind): nat {
    match k
    case I8 => 8
    case U8 => 8
    case I16 => 16
    case U16 => 16
    case I32 => 32
    case U32 => 32
    case I64 => 64
    case U64 => 64
    case USize(_) => 64
    case I128 => 128
    case U128 => 128
  }

  /** 2 to the power Width(k). */
  function Modulus(k: IntKind): int {
    match k
    case I8 => 0x100
    case U8 => 0x100
    case I16 => 0x1_0000
    case U16 => 0x1_0000
    case I32 => 0x1_0000_0000
    case U32 => 0x1_0000_0000
    case I64 => 0x1_0000_0000_0000_0000
    case U64 => 0x1_0000_0000_0000_0000
    case USize(_) => 0x1_0000_0000_0000_0000
    case I128 => TWO_TO_128
    case U128 => TWO_TO_128
  }

  predicate Fits(k: IntKind, v: int) {
    if Signed(k) then -Modulus(k) <= 2 * v < Modulus(k) else 0 <= v < Modulus(k)
  }

  datatype RawInt = MachineInt(kind: IntKind, value: int)

  type MachineInt = i: RawInt | Fits(i.kind, i.value) witness MachineInt(I32, 0)

  /** Two machine integers the literal operators accept together: the pointer width of USize is ignored. */
  predicate SameKind(a: IntKind, b: IntKind) {
    a == b || (a.USize? && b.USize?)
  }

  /** The residue an integer has after truncation to a kind, read with the kind's signedness. */
  function Wrap(k: IntKind, v: int): (r: int)
    ensures Fits(k, r)
  {
    var m := v % Modulus(k);
    if Signed(k) && Modulus(k) <= 2 * m then m - Modulus(k) else m
  }

  function Wrapped(k: IntKind, v: int): MachineInt {
    MachineInt(k, Wrap(k, v))
  }

  /** An integer seen as an unsigned 128-bit word (sign extension for negative values). */
  function Image(v: int): Word128 {
    v % TWO_TO_128
  }

  lemma {:induction false} ModOfMultiple(x: int, m: int, n: int)
    requires 0 < m && 0 < n
    ensures (x % (m * n)) % m == x % m
  {
    var q, r := x / (m * n), x % (m * n);
    assert 0 < m * n;
    assert x == m * (n * q) + r;
    ModUnique(x, m, n * q + r / m, r % m);
  }

  lemma {:induction false} ModUnique(x: int, m: int, q: int, r: int)
    requires 0 < m && 0 <= r < m
    requires x == m * q + r
    ensures x % m == r
  {
    var d := x / m - q;
    assert m * d == r - x % m by { assert x == m * (x / m) + x % m; }
    assert d >= 1 ==> m * d >= m;
    assert d <= -1 ==> m * d <= -m;
  }

  /** Truncation to any kind only sees the 128-bit image. */
  lemma {:induction false} WrapSeesImage(k: IntKind, a: int, b: int)
    requires Image(a) == Image(b)
    ensures Wrap(k, a) == Wrap(k, b)
  {
    var n := TWO_TO_128 / Modulus(k);
    assert Modulus(k) * n == TWO_TO_128;
    ModOfMultiple(a, Modulus(k), n);
    ModOfMultiple(b, Modulus(k), n);
  }

  /** Wrapping is the identity on values that already fit. */
  lemma {:induction false} WrapFixed(k: IntKind, v: int)
    requires Fits(k, v)
    ensures Wrap(k, v) == v
  {
    if 0 <= v {
      ModUnique(v, Modulus(k), 0, v);
    } else {
      ModUnique(v, Modulus(k), -1, v + Modulus(k));
    }
  }

  /** Distinct values of one kind have distinct images, so an image and a kind determine the integer. */
  lemma {:induction false} ImageInjective(k: IntKind, a: int, b: int)
    requires Fits(k, a) && Fits(k, b) && Image(a) == Image(b)
    ensures a == b
  {
    WrapSeesImage(k, a, b);
    WrapFixed(k, a);
    WrapFixed(k, b);
  }
}
