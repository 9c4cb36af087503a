/** Literals and the operators defined on them (integers, booleans and unit; floats are not modelled). */
module Literals {
  import opened FixedWidth

  datatype BinaryOp =
    | Add | Sub | Mul | Div | Mod
    | And | Or | Xor
    | Shl | Shr | Rol | Ror
    | LogicAnd | LogicOr
    | Lt | Gt | Lte | Gte | Eq | Ne

  datatype UnaryOp = Pos | Neg | Not

  datatype Lit = LUnit | LBool(b: bool) | LInt(i: MachineInt)

  datatype LitError = LTypeError | LDivisionByZero | LModuloByZero | LShiftAmountError

  datatype LitResult = LOk(lit: Lit) | LErr(error: LitError)

  predicate IsComparison(op: BinaryOp) {
    op.Lt? || op.Gt? || op.Lte? || op.Gte? || op.Eq? || op.Ne?
  }

  function Abs(a: int): nat {
    if a < 0 then -a else a
  }

  /** Machine division truncates towards zero; the remainder keeps the dividend's sign. */
  function TruncDiv(a: int, b: int): int
    requires b != 0
  {
    if (a < 0) == (b < 0) then Abs(a) / Abs(b) else -(Abs(a) / Abs(b))
  }

  function TruncRem(a: int, b: int): int
    requires b != 0
  {
    a - b * TruncDiv(a, b)
  }

  lemma {:induction false} TruncatedDivisionLaw(a: int, b: int)
    requires b != 0
    ensures Abs(TruncRem(a, b)) < Abs(b)
    ensures TruncRem(a, b) == 0 || (TruncRem(a, b) < 0 <==> a < 0)
    ensures Abs(b * TruncDiv(a, b)) <= Abs(a)
  {
    var q: int := Abs(a) / Abs(b);
    MagnitudeDivision(Abs(a), Abs(b));
    SignedProduct(b, q);
    var product: int := Abs(b) * q;
    assert b * TruncDiv(a, b) == if a < 0 then -product else product;
  }

  lemma {:induction false} MagnitudeDivision(m: int, n: int)
    requires 0 <= m && 0 < n
    ensures m == n * (m / n) + m % n && 0 <= m % n < n && 0 <= n * (m / n) <= m
  {
    assert 0 <= m / n;
  }

  lemma {:induction false} SignedProduct(b: int, q: int)
    ensures b * q == if b < 0 then -(Abs(b) * q) else Abs(b) * q
    ensures b * -q == -(b * q)
  {
    assert (-b) * q == -(b * q);
  }

  function Pow2(n: nat): (p: int)
    ensures 0 < p
  {
    if n == 0 then 1 else 2 * Pow2(n - 1)
  }

  /** Bitwise combination of the low n bits of two words. */
  function BitwiseWord(op: BinaryOp, a: nat, b: nat, n: nat): nat {
    if n == 0 then 0 else
      var bit := match op
        case And => if a % 2 == 1 && b % 2 == 1 then 1 else 0
        case Or => if a % 2 == 1 || b % 2 == 1 then 1 else 0
        case _ => if a % 2 != b % 2 then 1 else 0;
      bit + 2 * BitwiseWord(op, a / 2, b / 2, n - 1)
  }

  function Bitwise(op: BinaryOp, k: IntKind, a: int, b: int): MachineInt {
    Wrapped(k, BitwiseWord(op, a % Modulus(k), b % Modulus(k), Width(k)))
  }

  /** Only a U32 amount is accepted, and it must be below the width of the shifted kind. */
  function Shift(op: BinaryOp, x: MachineInt, y: MachineInt): LitResult {
    if !y.kind.U32? then LErr(LTypeError)
    else if y.value >= Width(x.kind) then LErr(LShiftAmountError)
    else if op.Shl? then LOk(LInt(Wrapped(x.kind, x.value * Pow2(y.value))))
    else LOk(LInt(Wrapped(x.kind, x.value / Pow2(y.value))))
  }

  function Arithmetic(op: BinaryOp, x: MachineInt, y: MachineInt): LitResult {
    if !SameKind(x.kind, y.kind) then LErr(LTypeError)
    else
      match op
      case Add => LOk(LInt(Wrapped(x.kind, x.value + y.value)))
      case Sub => LOk(LInt(Wrapped(x.kind, x.value - y.value)))
      case Mul => LOk(LInt(Wrapped(x.kind, x.value * y.value)))
      case Div =>
        if y.value == 0 then LErr(LDivisionByZero)
        else LOk(LInt(Wrapped(x.kind, TruncDiv(x.value, y.value))))
      case Mod =>
        if y.value == 0 then LErr(LModuloByZero)
        else LOk(LInt(Wrapped(x.kind, TruncRem(x.value, y.value))))
      case _ => LOk(LInt(Bitwise(op, x.kind, x.value, y.value)))
  }

  /** The order used by comparisons: unit is one point, false is below true, integers compare by value. */
  function Rank(l: Lit): int {
    match l
    case LUnit => 0
    case LBool(b) => if b then 1 else 0
    case LInt(i) => i.value
  }

  predicate Comparable(a: Lit, b: Lit) {
    (a.LUnit? && b.LUnit?) || (a.LBool? && b.LBool?) || (a.LInt? && b.LInt? && SameKind(a.i.kind, b.i.kind))
  }

  function Compare(op: BinaryOp, a: Lit, b: Lit): LitResult
    requires IsComparison(op)
  {
    if !Comparable(a, b) then LErr(LTypeError)
    else
      match op
      case Lt => LOk(LBool(Rank(a) < Rank(b)))
      case Gt => LOk(LBool(Rank(a) > Rank(b)))
      case Lte => LOk(LBool(Rank(a) <= Rank(b)))
      case Gte => LOk(LBool(Rank(a) >= Rank(b)))
      case Eq => LOk(LBool(Rank(a) == Rank(b)))
      case Ne => LOk(LBool(Rank(a) != Rank(b)))
  }

  /** Every binary operator except the short-circuit ones. Rotations always end in a type error here,
      because the evaluator never passes them a U32 amount. */
  function Binary(op: BinaryOp, a: Lit, b: Lit): LitResult
    requires !op.LogicAnd? && !op.LogicOr?
  {
    if IsComparison(op) then Compare(op, a, b)
    else if op.Rol? || op.Ror? || !a.LInt? || !b.LInt? then LErr(LTypeError)
    else if op.Shl? || op.Shr? then Shift(op, a.i, b.i)
    else Arithmetic(op, a.i, b.i)
  }

  function Unary(op: UnaryOp, a: Lit): LitResult {
    match op
    case Pos => LOk(a)
    case Neg => if a.LInt? then LOk(LInt(Wrapped(a.i.kind, -a.i.value))) else LErr(LTypeError)
    case Not =>
      match a
      case LUnit => LErr(LTypeError)
      case LBool(b) => LOk(LBool(!b))
      case LInt(i) => LOk(LInt(Wrapped(i.kind, -1 - i.value)))
  }
}
