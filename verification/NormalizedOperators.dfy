/** What normalising every integer to I32, I64, U64 or U128 by its unsigned image does to the operators. */
module NormalizedOperators {
  import opened FixedWidth
  import L = Literals
  import opened Hir
  import opened Evaluation
  import Numerals

  predicate IsIntegerLike(v: Value) {
    v.Int? || v.InferredInteger? || v.Bool?
  }

  function NormalKind(v: Value): IntKind {
    NormalizeInteger(IntegerWord(v)).kind
  }

  predicate IsArithmetic(op: L.BinaryOp) {
    op.Add? || op.Sub? || op.Mul? || op.Div? || op.Mod? || op.And? || op.Or? || op.Xor? || L.IsComparison(op)
  }

  /** Normalisation keeps the word and picks the kind from it alone. */
  lemma {:induction false} NormalizedKeepsWord(w: Word128)
    ensures NormalizeInteger(w).value == w
    ensures !NormalizeInteger(w).kind.USize?
  {
  }

  /** An arithmetic, bitwise or comparison operator succeeds exactly when both images normalise to the same kind
      and a divisor is not zero. The declared kinds of the operands play no part. */
  lemma {:induction false} ArithmeticSucceedsIff(op: L.BinaryOp, l: Value, r: Value)
    requires IsArithmetic(op) && IsIntegerLike(l) && IsIntegerLike(r)
    ensures BinaryResult(op, l, r).Ok? <==>
            NormalKind(l) == NormalKind(r) && (op.Div? || op.Mod? ==> IntegerWord(r) != 0)
    ensures BinaryResult(op, l, r).Err? ==>
            BinaryResult(op, l, r).error ==
            if NormalKind(l) != NormalKind(r) then TypeError else if op.Div? then DivisionByZero else ModuloByZero
  {
    hide L.Binary, NormalizeInteger, IntegerWord;
    var a, b := NormalizeInteger(IntegerWord(l)), NormalizeInteger(IntegerWord(r));
    ReadsNormalized(op, l, r);
    NormalizedKeepsWord(IntegerWord(l));
    NormalizedKeepsWord(IntegerWord(r));
    IntegerOperands(op, a, b);
  }

  lemma {:induction false} ReadsNormalized(op: L.BinaryOp, l: Value, r: Value)
    requires !op.LogicAnd? && !op.LogicOr? && IsIntegerLike(l) && IsIntegerLike(r)
    ensures BinaryResult(op, l, r) ==
            FromLitResult(L.Binary(op, L.LInt(NormalizeInteger(IntegerWord(l))), L.LInt(NormalizeInteger(IntegerWord(r)))))
  {
    hide L.Binary, NormalizeInteger, IntegerWord;
  }

  lemma {:induction false} IntegerOperands(op: L.BinaryOp, x: MachineInt, y: MachineInt)
    requires IsArithmetic(op)
    ensures var r := L.Binary(op, L.LInt(x), L.LInt(y));
      if !SameKind(x.kind, y.kind) then r == L.LErr(L.LTypeError)
      else if (op.Div? || op.Mod?) && y.value == 0 then r == L.LErr(if op.Div? then L.LDivisionByZero else L.LModuloByZero)
      else r.LOk?
  {
    hide L.Bitwise, Wrap, L.TruncDiv, L.TruncRem;
  }

  /** A negative operand never combines with a non-negative one below 2^64: its image is a 128-bit word. */
  lemma {:induction false} MixedSignsFail(op: L.BinaryOp, l: MachineInt, r: MachineInt)
    requires IsArithmetic(op)
    requires l.value < 0 <= r.value < 0x1_0000_0000_0000_0000
    ensures BinaryResult(op, Int(l), Int(r)) == Err(TypeError)
    ensures BinaryResult(op, Int(r), Int(l)) == Err(TypeError)
  {
    hide L.Bitwise;
    assert -TWO_TO_128 <= 2 * l.value;
    ModUnique(l.value, TWO_TO_128, -1, l.value + TWO_TO_128);
    ModUnique(r.value, TWO_TO_128, 0, r.value);
    assert IntegerWord(Int(l)) == l.value + TWO_TO_128 && IntegerWord(Int(r)) == r.value;
    hide Image, IntegerWord, L.Binary;
    ArithmeticSucceedsIff(op, Int(l), Int(r));
    ArithmeticSucceedsIff(op, Int(r), Int(l));
  }

  /** Normalised shift amounts are never U32, the one kind shifts accept, so a shift never succeeds. */
  lemma {:induction false} ShiftsAlwaysFail(op: L.BinaryOp, l: Value, r: Value)
    requires op.Shl? || op.Shr?
    ensures BinaryResult(op, l, r) == Err(TypeError)
  {
    hide IntegerWord;
  }

  /** Negating a boolean yields an I32, never a boolean. */
  lemma {:induction false} NotOfBoolIsInteger(b: bool)
    ensures UnaryResult(L.Not, Bool(b)) == Ok(Int(MachineInt(I32, if b then -2 else -1)))
  {
    WrapFixed(I32, -1);
    WrapFixed(I32, -2);
  }

  predicate IsRingOperator(op: L.BinaryOp) {
    op.Add? || op.Sub? || op.Mul?
  }

  /** The mathematical result of an addition, a subtraction or a multiplication. */
  function Exactly(op: L.BinaryOp, a: int, b: int): int
    requires IsRingOperator(op)
  {
    match op case Add => a + b case Sub => a - b case Mul => a * b
  }

  /** Addition, subtraction and multiplication are exact modulo 2^128 exactly when the result on the images fits the kind
      they normalise to, or that kind is already U128; otherwise they wrap in the smaller kind, whatever the declared
      kinds were. */
  lemma {:induction false} ArithmeticExactIff(op: L.BinaryOp, l: Value, r: Value)
    requires IsRingOperator(op)
    requires IsIntegerLike(l) && IsIntegerLike(r) && NormalKind(l) == NormalKind(r)
    ensures
      var exact := Exactly(op, IntegerWord(l), IntegerWord(r));
      BinaryResult(op, l, r).Ok? &&
      (IntegerWord(BinaryResult(op, l, r).value) == Image(exact) <==> Fits(NormalKind(l), exact) || NormalKind(l).U128?)
  {
    hide IntegerWord, NormalizeInteger, L.Binary, Wrap, Image, Fits, Exactly;
    var a: int, b: int := IntegerWord(l), IntegerWord(r);
    var k := NormalKind(l);
    ReadsNormalized(op, l, r);
    NormalizedKeepsWord(a);
    NormalizedKeepsWord(b);
    CombinesWords(op, k, NormalizeInteger(a), NormalizeInteger(b));
    WordOfWrapped(k, Exactly(op, a, b));
    ExactInRange(op, a, b);
    WrapShowsIff(k, Exactly(op, a, b));
  }

  lemma {:induction false} CombinesWords(op: L.BinaryOp, k: IntKind, x: MachineInt, y: MachineInt)
    requires IsRingOperator(op) && x.kind == y.kind == k
    ensures L.Binary(op, L.LInt(x), L.LInt(y)) == L.LOk(L.LInt(Wrapped(k, Exactly(op, x.value, y.value))))
  {
    hide Wrap;
  }

  lemma {:induction false} WordOfWrapped(k: IntKind, v: int)
    ensures IntegerWord(Int(Wrapped(k, v))) == Image(Wrap(k, v))
  {
  }

  /** Far enough from wrapping around 128 bits that a difference of images shows. */
  predicate InRange(k: IntKind, v: int) {
    && (k.I32? || k.I64? || k.U64? || k.U128?)
    && (k.U128? || -0x1_0000_0000_0000_0000 < v < if Signed(k) then TWO_TO_128 / 2 else TWO_TO_128)
  }

  lemma {:induction false} ExactInRange(op: L.BinaryOp, a: Word128, b: Word128)
    requires IsRingOperator(op) && NormalizeInteger(a).kind == NormalizeInteger(b).kind
    ensures InRange(NormalizeInteger(a).kind, Exactly(op, a, b))
  {
    var k := NormalizeInteger(a).kind;
    if k.I32? {
      ProductBelow(a, b, 0x8000_0000);
    } else if k.I64? {
      ProductBelow(a, b, 0x8000_0000_0000_0000);
    } else if k.U64? {
      ProductBelow(a, b, 0x1_0000_0000_0000_0000);
    }
  }

  lemma {:induction false} ProductBelow(a: int, b: int, m: int)
    requires 0 <= a < m && 0 <= b < m
    ensures 0 <= a * b < m * m
  {
    Numerals.Product(a, b);
    Numerals.Product(m - a, b);
    Numerals.Product(m, m - b);
    Differences(a, b, m);
  }

  lemma {:induction false} Differences(a: int, b: int, m: int)
    ensures (m - a) * b == m * b - a * b
    ensures m * (m - b) == m * m - m * b
  {
  }

  /** Wrapping in a kind below U128 changes the image exactly when the value does not fit. */
  lemma {:induction false} WrapShowsIff(k: IntKind, v: int)
    requires InRange(k, v)
    ensures Image(Wrap(k, v)) == Image(v) <==> Fits(k, v) || k.U128?
  {
    if Fits(k, v) {
      WrapFixed(k, v);
    } else if k.U128? {
      ModUnique(Image(v), TWO_TO_128, 0, Image(v));
    } else {
      NearImagesDiffer(Wrap(k, v), v);
    }
  }

  lemma {:induction false} NearImagesDiffer(a: int, b: int)
    requires a != b && -TWO_TO_128 < a - b < TWO_TO_128
    ensures Image(a) != Image(b)
  {
    var p: int, q: int := a / TWO_TO_128, b / TWO_TO_128;
    assert a - b == TWO_TO_128 * (p - q) + (Image(a) - Image(b));
  }
}
