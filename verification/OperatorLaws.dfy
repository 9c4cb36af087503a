/** What the operators and casts of the evaluator compute, said without their definitions: division leaves a
    remainder, comparisons order words, bitwise operators act bit by bit, casts keep what fits. */
module OperatorLaws {
  import opened FixedWidth
  import L = Literals
  import opened Hir
  import opened Evaluation
  import opened NormalizedOperators

  // ---------------------------------------------------------------------------
  // Literals
  // ---------------------------------------------------------------------------

  /** Dividing the least value of a signed kind by minus one, the one quotient that leaves its kind. */
  predicate QuotientOverflows(x: MachineInt, y: MachineInt) {
    Signed(x.kind) && 2 * x.value == -Modulus(x.kind) && y.value == -1
  }

  /** Division and remainder on literals of one kind: dividend equals divisor times quotient plus remainder, the
      remainder is smaller than the divisor and has the dividend's sign; the one overflowing quotient wraps to the
      dividend and leaves nothing. */
  lemma {:induction false} LiteralDivisionLaw(x: MachineInt, y: MachineInt)
    requires x.kind == y.kind && y.value != 0
    ensures
      var q := L.Binary(L.Div, L.LInt(x), L.LInt(y));
      var m := L.Binary(L.Mod, L.LInt(x), L.LInt(y));
      && q.LOk? && q.lit.LInt? && q.lit.i.kind == x.kind
      && m.LOk? && m.lit.LInt? && m.lit.i.kind == x.kind
      && if QuotientOverflows(x, y) then q.lit.i == x && m.lit.i.value == 0
         else && x.value == y.value * q.lit.i.value + m.lit.i.value
              && L.Abs(m.lit.i.value) < L.Abs(y.value)
              && (m.lit.i.value == 0 || (m.lit.i.value < 0 <==> x.value < 0))
  {
    var k := x.kind;
    var q, m := L.TruncDiv(x.value, y.value), L.TruncRem(x.value, y.value);
    L.TruncatedDivisionLaw(x.value, y.value);
    QuotientFits(x, y);
    hide L.TruncDiv, L.TruncRem, Wrap, Modulus;
    if QuotientOverflows(x, y) {
      WrapOverflow(k, q);
    } else {
      WrapFixed(k, q);
    }
    WrapFixed(k, m);
  }

  lemma {:induction false} WrapOverflow(k: IntKind, v: int)
    requires Signed(k) && 2 * v == Modulus(k)
    ensures Wrap(k, v) == -v
  {
    ModUnique(v, Modulus(k), 0, v);
  }

  lemma {:induction false} QuotientFits(x: MachineInt, y: MachineInt)
    requires x.kind == y.kind && y.value != 0
    ensures var q := L.TruncDiv(x.value, y.value);
      var m := L.TruncRem(x.value, y.value);
      && x.value == y.value * q + m
      && (if QuotientOverflows(x, y) then q == -x.value && m == 0 else Fits(x.kind, q))
      && Fits(x.kind, m)
  {
    var q := L.TruncDiv(x.value, y.value);
    L.TruncatedDivisionLaw(x.value, y.value);
    var size: int, divisor: int := L.Abs(x.value), L.Abs(y.value);
    QuotientBelow(size, divisor);
    if divisor == 1 {
      assert L.Abs(q) == size;
      assert y.value * q == x.value;
    }
  }

  lemma {:induction false} QuotientBelow(size: nat, divisor: nat)
    requires 0 < divisor
    ensures 0 <= size / divisor <= size
    ensures divisor == 1 ==> size / divisor == size
    ensures divisor >= 2 ==> 2 * (size / divisor) <= size
  {
    var q: int, m: int := size / divisor, size % divisor;
    assert size == divisor * q + m;
    assert q >= 0;
    Scaled(divisor, q);
  }

  /** A positive factor moves a number away from zero. */
  lemma {:induction false} Scaled(p: int, q: int)
    requires 0 < p
    ensures q >= 0 ==> p * q >= q
    ensures q >= 0 && p >= 2 ==> p * q >= 2 * q
    ensures q <= 0 ==> p * q <= q
  {
    var more: int := p - 1;
    assert p * q == q + more * q;
    assert q >= 0 ==> more * q >= 0;
    assert q >= 0 && more >= 1 ==> more * q >= q;
    assert q <= 0 ==> more * q <= 0;
  }

  /** Shifts on literals: to the right the value is divided by the power of two towards minus infinity, to the left it
      is multiplied and wrapped; an amount of another kind than U32 or not below the width is refused. */
  lemma {:induction false} LiteralShiftLaw(x: MachineInt, y: MachineInt)
    ensures
      var left := L.Binary(L.Shl, L.LInt(x), L.LInt(y));
      var right := L.Binary(L.Shr, L.LInt(x), L.LInt(y));
      if !y.kind.U32? then left == right == L.LErr(L.LTypeError)
      else if y.value >= Width(x.kind) then left == right == L.LErr(L.LShiftAmountError)
      else
        var p := L.Pow2(y.value);
        && left.LOk? && left.lit.LInt? && left.lit.i.kind == x.kind
        && left.lit.i.value % Modulus(x.kind) == x.value * p % Modulus(x.kind)
        && right.LOk? && right.lit.LInt? && right.lit.i.kind == x.kind
        && right.lit.i.value * p <= x.value < right.lit.i.value * p + p
  {
    hide Wrap, Modulus;
    if y.kind.U32? && y.value < Width(x.kind) {
      var p := L.Pow2(y.value);
      WrapCongruent(x.kind, x.value * p);
      FloorFits(x, p);
      WrapFixed(x.kind, x.value / p);
    }
  }

  lemma {:induction false} FloorFits(x: MachineInt, p: int)
    requires 0 < p
    ensures Fits(x.kind, x.value / p) && (x.value / p) * p <= x.value < (x.value / p) * p + p
  {
    FloorBounds(x.value, p);
  }

  lemma {:induction false} FloorBounds(x: int, p: int)
    requires 0 < p
    ensures (x / p) * p <= x < (x / p) * p + p
    ensures if x < 0 then x <= x / p < 0 else 0 <= x / p <= x
  {
    var q: int, m: int := x / p, x % p;
    assert x == p * q + m;
    Scaled(p, q);
    Scaled(p, q + 1);
    assert p * (q + 1) == p * q + p;
  }

  lemma {:induction false} WrapCongruent(k: IntKind, v: int)
    ensures Wrap(k, v) % Modulus(k) == v % Modulus(k)
  {
    var m := v % Modulus(k);
    if Signed(k) && Modulus(k) <= 2 * m {
      ModUnique(m - Modulus(k), Modulus(k), -1, m);
    } else {
      ModUnique(m, Modulus(k), 0, m);
    }
  }

  // ---------------------------------------------------------------------------
  // Normalisation
  // ---------------------------------------------------------------------------

  /** The place of a kind among those an integer is normalised to. */
  function Order(k: IntKind): nat {
    if k.I32? then 0 else if k.I64? then 1 else if k.U64? then 2 else 3
  }

  /** An integer is normalised, with its word, to the first of I32, I64, U64 and U128 that holds it. */
  lemma {:induction false} FirstKindThatFits(w: Word128, k: IntKind)
    requires k.I32? || k.I64? || k.U64? || k.U128?
    ensures NormalizeInteger(w).value == w
    ensures NormalizeInteger(w).kind == k <==>
            Fits(k, w) && forall j | j in {I32, I64, U64, U128} && Fits(j, w) :: Order(k) <= Order(j)
  {
    assert Fits(NormalizeInteger(w).kind, w);
    assert forall j | j in {I32, I64, U64, U128} && Fits(j, w) :: Order(NormalizeInteger(w).kind) <= Order(j);
  }

  // ---------------------------------------------------------------------------
  // Binary operators
  // ---------------------------------------------------------------------------

  /** Division and remainder of the evaluator on the words of their operands. */
  lemma {:induction false} DivisionLaw(l: Value, r: Value)
    requires IsIntegerLike(l) && IsIntegerLike(r) && NormalKind(l) == NormalKind(r) && IntegerWord(r) != 0
    ensures
      var q, m := BinaryResult(L.Div, l, r), BinaryResult(L.Mod, l, r);
      && q.Ok? && q.value.Int? && m.Ok? && m.value.Int?
      && IntegerWord(q.value) * IntegerWord(r) + IntegerWord(m.value) == IntegerWord(l)
      && IntegerWord(m.value) < IntegerWord(r)
  {
    hide L.Binary, NormalizeInteger, IntegerWord;
    ReadsNormalized(L.Div, l, r);
    ReadsNormalized(L.Mod, l, r);
    NormalizedKeepsWord(IntegerWord(l));
    NormalizedKeepsWord(IntegerWord(r));
    NaturalDivision(NormalizeInteger(IntegerWord(l)), NormalizeInteger(IntegerWord(r)));
  }

  lemma {:induction false} NaturalDivision(x: MachineInt, y: MachineInt)
    requires x.kind == y.kind && 0 <= x.value && 0 < y.value
    ensures
      var q, m := L.Binary(L.Div, L.LInt(x), L.LInt(y)), L.Binary(L.Mod, L.LInt(x), L.LInt(y));
      && q.LOk? && q.lit.LInt? && m.LOk? && m.lit.LInt?
      && IntegerWord(Int(q.lit.i)) * y.value + IntegerWord(Int(m.lit.i)) == x.value
      && IntegerWord(Int(m.lit.i)) < y.value
  {
    hide L.Binary, IntegerWord;
    LiteralDivisionLaw(x, y);
    var q, m := L.Binary(L.Div, L.LInt(x), L.LInt(y)).lit.i, L.Binary(L.Mod, L.LInt(x), L.LInt(y)).lit.i;
    QuotientIsNatural(x.value, y.value, q.value, m.value);
    OwnImage(q);
    OwnImage(m);
  }

  lemma {:induction false} QuotientIsNatural(x: int, y: int, q: int, m: int)
    requires 0 <= x && 0 < y && x == y * q + m && L.Abs(m) < y && (m == 0 || (m < 0 <==> x < 0))
    ensures 0 <= q && 0 <= m < y
  {
    assert -q * y == -(y * q);
    if q < 0 {
      Scaled(-q, y);
    }
  }

  /** A non-negative machine integer is its own word. */
  lemma {:induction false} OwnImage(i: MachineInt)
    requires 0 <= i.value
    ensures IntegerWord(Int(i)) == i.value
  {
    ModUnique(i.value, TWO_TO_128, 0, i.value);
  }

  /** What a comparison asks of two numbers. */
  predicate Holds(op: L.BinaryOp, a: int, b: int)
    requires L.IsComparison(op)
  {
    match op
    case Lt => a < b
    case Gt => b < a
    case Lte => !(b < a)
    case Gte => !(a < b)
    case Eq => a == b
    case Ne => a != b
  }

  /** A comparison orders words; two units are equal. */
  lemma {:induction false} ComparisonLaw(op: L.BinaryOp, l: Value, r: Value)
    requires L.IsComparison(op) && IsIntegerLike(l) && IsIntegerLike(r) && NormalKind(l) == NormalKind(r)
    ensures BinaryResult(op, l, r) == Ok(Bool(Holds(op, IntegerWord(l), IntegerWord(r))))
    ensures BinaryResult(op, Unit, Unit) == Ok(Bool(Holds(op, 0, 0)))
  {
    ReadsNormalized(op, l, r);
    hide NormalizeInteger, IntegerWord;
    NormalizedKeepsWord(IntegerWord(l));
    NormalizedKeepsWord(IntegerWord(r));
  }

  /** On literals of booleans, which the evaluator never passes on: false is below true, and not is the other one. */
  lemma {:induction false} BooleanLiterals(op: L.BinaryOp, a: bool, b: bool)
    requires L.IsComparison(op)
    ensures L.Binary(op, L.LBool(a), L.LBool(b)) == L.LOk(L.LBool(Holds(op, if a then 1 else 0, if b then 1 else 0)))
    ensures L.Unary(L.Not, L.LBool(a)) == L.LOk(L.LBool(a == false))
    ensures L.Unary(L.Neg, L.LBool(a)).LErr? && L.Binary(L.And, L.LBool(a), L.LBool(b)).LErr?
  {
  }

  /** Operands that are not both integer-like fail, except that two units can be compared. */
  lemma {:induction false} OtherOperandsFail(op: L.BinaryOp, l: Value, r: Value)
    requires !op.LogicAnd? && !op.LogicOr? && !(IsIntegerLike(l) && IsIntegerLike(r))
    ensures BinaryResult(op, l, r) ==
            if L.IsComparison(op) && l.Unit? && r.Unit? then Ok(Bool(Holds(op, 0, 0))) else Err(TypeError)
  {
    hide NormalizeInteger, IntegerWord, L.Bitwise, L.Shift;
  }

  // ---------------------------------------------------------------------------
  // Bits
  // ---------------------------------------------------------------------------

  predicate Bit(n: nat, i: nat) {
    if i == 0 then n % 2 == 1 else Bit(n / 2, i - 1)
  }

  predicate Combined(op: L.BinaryOp, a: bool, b: bool)
    requires op.And? || op.Or? || op.Xor?
  {
    match op case And => a && b case Or => a || b case Xor => a != b
  }

  /** A kind of a given width holds as many integers as there are words of that many bits. */
  lemma {:induction false} WidthsAndModuli(k: IntKind)
    ensures Modulus(k) == L.Pow2(Width(k))
  {
    hide L.Pow2;
    Powers();
    SmallPowers();
    PowersAdd(31, 1);
  }

  /** And, or and exclusive or act on every bit of the words by itself. */
  lemma {:induction false} BitwiseLaw(op: L.BinaryOp, l: Value, r: Value, i: nat)
    requires op.And? || op.Or? || op.Xor?
    requires IsIntegerLike(l) && IsIntegerLike(r) && NormalKind(l) == NormalKind(r)
    ensures var result := BinaryResult(op, l, r);
      && result.Ok? && result.value.Int?
      && (Bit(IntegerWord(result.value), i) <==> Combined(op, Bit(IntegerWord(l), i), Bit(IntegerWord(r), i)))
  {
    hide L.Binary, L.BitwiseWord, L.Pow2, Bit, Wrap, Modulus, IntegerWord;
    var a, b, k := IntegerWord(l), IntegerWord(r), NormalKind(l);
    var n := ValueBits(k);
    ReadsNormalized(op, l, r);
    BelowPower(a);
    BelowPower(b);
    BitwiseResult(op, MachineInt(k, a), MachineInt(k, b));
    OwnImage(MachineInt(k, L.BitwiseWord(op, a, b, Width(k))));
    CombinedBits(op, a, b, Width(k), i);
    if i >= Width(k) {
      NoHighBit(a, n, i);
      NoHighBit(b, n, i);
    }
  }

  /** The bits that hold the value of a non-negative integer of a kind. */
  function ValueBits(k: IntKind): (n: nat)
    ensures n <= Width(k)
  {
    if Signed(k) then Width(k) - 1 else Width(k)
  }

  lemma {:induction false} BelowPower(w: Word128)
    ensures var n := NormalizeInteger(w); n.value == w && w < L.Pow2(ValueBits(n.kind))
    ensures var k := NormalizeInteger(w).kind; k.I32? || k.I64? || k.U64? || k.U128?
  {
    hide L.Pow2;
    Powers();
  }

  lemma {:induction false} BitwiseResult(op: L.BinaryOp, x: MachineInt, y: MachineInt)
    requires op.And? || op.Or? || op.Xor?
    requires x.kind == y.kind && 0 <= x.value && 0 <= y.value
    requires x.kind.I32? || x.kind.I64? || x.kind.U64? || x.kind.U128?
    ensures var w := L.BitwiseWord(op, x.value, y.value, Width(x.kind));
      Fits(x.kind, w) && L.Binary(op, L.LInt(x), L.LInt(y)) == L.LOk(L.LInt(MachineInt(x.kind, w)))
  {
    hide L.BitwiseWord, L.Pow2, Wrap;
    Powers();
    var k := x.kind;
    BitwiseBelow(op, x.value, y.value, ValueBits(k), Width(k));
    ModUnique(x.value, Modulus(k), 0, x.value);
    ModUnique(y.value, Modulus(k), 0, y.value);
    WrapFixed(k, L.BitwiseWord(op, x.value, y.value, Width(k)));
  }

  lemma {:induction false} Powers()
    ensures L.Pow2(31) == 0x8000_0000 && L.Pow2(63) == 0x8000_0000_0000_0000
    ensures L.Pow2(64) == 0x1_0000_0000_0000_0000 && L.Pow2(128) == TWO_TO_128
  {
    hide L.Pow2;
    SmallPowers();
    PowersAdd(31, 31);
    PowersAdd(62, 1);
    PowersAdd(63, 1);
    PowersAdd(64, 64);
  }

  lemma {:induction false} SmallPowers()
    ensures L.Pow2(1) == 2 && L.Pow2(8) == 0x100 && L.Pow2(16) == 0x1_0000 && L.Pow2(31) == 0x8000_0000
  {
    assert L.Pow2(8) == 0x100;
    assert L.Pow2(15) == 0x8000;
    assert L.Pow2(23) == 0x80_0000;
  }

  lemma {:induction false} PowersAdd(m: nat, n: nat)
    ensures L.Pow2(m + n) == L.Pow2(m) * L.Pow2(n)
  {
    if n > 0 {
      PowersAdd(m, n - 1);
    }
  }

  lemma {:induction false} CombinedBits(op: L.BinaryOp, a: nat, b: nat, n: nat, i: nat)
    requires op.And? || op.Or? || op.Xor?
    ensures Bit(L.BitwiseWord(op, a, b, n), i) <==> i < n && Combined(op, Bit(a, i), Bit(b, i))
    decreases n
  {
    if n == 0 {
      NoHighBit(0, 0, i);
    } else {
      var rest: nat := L.BitwiseWord(op, a / 2, b / 2, n - 1);
      assert L.BitwiseWord(op, a, b, n) / 2 == rest;
      if i > 0 {
        CombinedBits(op, a / 2, b / 2, n - 1, i - 1);
      }
    }
  }

  lemma {:induction false} NoHighBit(a: nat, n: nat, i: nat)
    requires a < L.Pow2(n) && n <= i
    ensures !Bit(a, i)
    decreases i
  {
    if i > 0 {
      NoHighBit(a / 2, if n == 0 then 0 else n - 1, i - 1);
    }
  }

  lemma {:induction false} BitwiseBelow(op: L.BinaryOp, a: nat, b: nat, m: nat, n: nat)
    requires op.And? || op.Or? || op.Xor?
    requires a < L.Pow2(m) && b < L.Pow2(m)
    ensures L.BitwiseWord(op, a, b, n) < L.Pow2(m)
    decreases n
  {
    if n > 0 {
      BitwiseBelow(op, a / 2, b / 2, if m == 0 then 0 else m - 1, n - 1);
    }
  }

  // ---------------------------------------------------------------------------
  // Unary operators and casts
  // ---------------------------------------------------------------------------

  /** Unary operators work in the normalised kind: plus keeps the word, minus and not complement it, below zero where
      that kind has negative values and within it otherwise. */
  lemma {:induction false} UnaryLaw(v: Value)
    requires IsIntegerLike(v)
    ensures var w, k := IntegerWord(v), NormalKind(v);
      var top := if Signed(k) then 0 else Modulus(k);
      && UnaryResult(L.Pos, v) == Ok(Int(MachineInt(k, w)))
      && UnaryResult(L.Neg, v) == Ok(Int(MachineInt(k, top - w)))
      && UnaryResult(L.Not, v) == Ok(Int(MachineInt(k, top - 1 - w)))
  {
    hide IntegerWord, Wrap;
    var w, k := IntegerWord(v), NormalKind(v);
    NormalizedKeepsWord(w);
    Complement(k, w);
  }

  lemma {:induction false} Complement(k: IntKind, w: int)
    requires Fits(k, w) && 0 <= w && (Signed(k) || 0 < w)
    ensures var top := if Signed(k) then 0 else Modulus(k);
      Wrap(k, -w) == top - w && Wrap(k, -1 - w) == top - 1 - w
  {
    if Signed(k) {
      hide Wrap;
      WrapFixed(k, -w);
      WrapFixed(k, -1 - w);
    } else {
      hide Modulus;
      BelowZero(Modulus(k), w);
    }
  }

  lemma {:induction false} BelowZero(m: int, w: int)
    requires 0 < w < m
    ensures -w % m == m - w && (-1 - w) % m == m - 1 - w
  {
    ModUnique(-w, m, -1, m - w);
    ModUnique(-1 - w, m, -1, m - 1 - w);
  }

  /** Of everything else only plus on unit has a value. */
  lemma {:induction false} OtherOperandFails(op: L.UnaryOp, v: Value)
    requires !IsIntegerLike(v)
    ensures UnaryResult(op, v) == if op.Pos? && v.Unit? then Ok(Unit) else Err(TypeError)
  {
    hide IntegerWord, NormalizeInteger;
  }

  /** The number an integer-like value stands for when it is cast. */
  function Number(v: Value): int
    requires IsIntegerLike(v)
  {
    if v.Int? then v.i.value else if v.InferredInteger? then v.word else if v.b then 1 else 0
  }

  function CastKind(c: Config, target: CastTarget): IntKind
    requires target.ToInt? || target.ToUSize?
  {
    if target.ToInt? then target.kind else USize(c.pointerBits)
  }

  /** A cast to an integer kind keeps every number that fits and otherwise gives the one of that kind that is congruent
      to it. */
  lemma {:induction false} CastLaw(c: Config, v: Value, target: CastTarget)
    requires IsIntegerLike(v) && (target.ToInt? || target.ToUSize?)
    ensures var r := CastResult(c, v, target);
      var k := CastKind(c, target);
      && r.Ok? && r.value.Int? && r.value.i.kind == k
      && r.value.i.value % Modulus(k) == Number(v) % Modulus(k)
      && (Fits(k, Number(v)) ==> r.value.i.value == Number(v))
  {
    hide Modulus, Wrap;
    var k := CastKind(c, target);
    WrapCongruent(k, Number(v));
    if Fits(k, Number(v)) {
      WrapFixed(k, Number(v));
    }
  }

  /** Integer-like values and unit become unit; every other cast is a type error. */
  lemma {:induction false} OtherCasts(c: Config, v: Value, target: CastTarget)
    requires !(IsIntegerLike(v) && (target.ToInt? || target.ToUSize?))
    ensures CastResult(c, v, target) ==
            if target.ToUnit? && (v.Unit? || IsIntegerLike(v)) then Ok(Unit) else Err(TypeError)
  {
  }
}
