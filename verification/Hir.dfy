/** Expressions of the high-level IR as finite trees, with the functions they may call as a finite table.
    Source positions and store handles are dropped: a symbol is its qualified name. */
module Hir {
  import opened Wrappers
  import opened FixedWidth
  import opened Literals

  type Name = string

  datatype Safety = Safe | Unsafe

  /** The target of a cast, as far as the evaluator distinguishes targets. */
  datatype CastTarget = ToUnit | ToInt(kind: IntKind) | ToUSize | ToOther

  datatype Field = Field(name: Name, value: Value)

  datatype Element =
    | Expr(value: Value)
    | Local(name: Name, initializer: Option<Value>)

  datatype Block = Block(safety: Safety, elements: seq<Element>)

  datatype Value =
    | Unit
    | Bool(b: bool)
    | Int(i: MachineInt)
    | InferredInteger(word: Word128)
    | StringLit(text: string)
    | BStringLit(bytes: seq<nat>)
    | FunctionSymbol(func: Name)
    | StructObject(structDef: Name, fields: seq<Field>)
    | EnumVariant(enumDef: Name, variant: Name, payload: Value)
    | List(elements: seq<Value>)
    | Tuple(elements: seq<Value>)
    | Binary(left: Value, op: BinaryOp, right: Value)
    | Unary(uop: UnaryOp, operand: Value)
    | Cast(expr: Value, target: CastTarget)
    | If(condition: Value, thenBlock: Block, elseBlock: Option<Block>)
    | While(condition: Value, body: Block)
    | Loop(body: Block)
    | Break(loopLabel: Option<Name>)
    | Continue(loopLabel: Option<Name>)
    | Return(expr: Value)
    | BlockExpr(block: Block)
    | FieldAccess(expr: Value, fieldName: Name)
    | IndexAccess(collection: Value, index: Value)
    | Assign(place: Value, rhs: Value)
    | Borrow(place: Value)
    | Deref(place: Value)
    | Call(callee: Value, positional: seq<Value>, named: seq<Field>)
    | MethodCall(receiver: Value, methodName: Name)
    | GlobalVariableSymbol(name: Name)
    | LocalVariableSymbol(name: Name)
    | ParameterSymbol(name: Name)
    | Range

  datatype Function = Function(params: seq<Name>, isUnsafe: bool, body: Option<seq<Element>>)

  /** Values the evaluator can produce: literals, function symbols and aggregates of such values. */
  predicate IsNormal(v: Value) {
    match v
    case Unit => true
    case Bool(_) => true
    case Int(_) => true
    case InferredInteger(_) => true
    case StringLit(_) => true
    case BStringLit(_) => true
    case FunctionSymbol(_) => true
    case StructObject(_, fields) => forall i | 0 <= i < |fields| :: IsNormal(fields[i].value)
    case EnumVariant(_, _, payload) => IsNormal(payload)
    case List(elements) => forall i | 0 <= i < |elements| :: IsNormal(elements[i])
    case Tuple(elements) => forall i | 0 <= i < |elements| :: IsNormal(elements[i])
    case _ => false
  }

  type Normal = v: Value | IsNormal(v) witness Unit

  // ---- sizes, used as termination measures ----

  function Size(v: Value): nat
    decreases v, 0
  {
    match v
    case StructObject(_, fields) => 1 + FieldsSize(fields)
    case EnumVariant(_, _, payload) => 2 + Size(payload)
    case List(elements) => 1 + ValuesSize(elements)
    case Tuple(elements) => 1 + ValuesSize(elements)
    case Binary(left, _, right) => 1 + Size(left) + Size(right)
    case Unary(_, operand) => 1 + Size(operand)
    case Cast(expr, _) => 1 + Size(expr)
    case If(condition, thenBlock, elseBlock) =>
      1 + Size(condition) + BlockSize(thenBlock) + (if elseBlock.Some? then BlockSize(elseBlock.value) else 0)
    case While(condition, body) => 2 + Size(condition) + BlockSize(body)
    case Loop(body) => 2 + BlockSize(body)
    case Return(expr) => 1 + Size(expr)
    case BlockExpr(block) => 1 + BlockSize(block)
    case FieldAccess(expr, _) => 1 + Size(expr)
    case IndexAccess(collection, index) => 1 + Size(collection) + Size(index)
    case Assign(_, rhs) => 1 + Size(rhs)
    case Call(callee, positional, named) => 1 + Size(callee) + ValuesSize(positional) + FieldsSize(named)
    case _ => 0
  }

  function ValuesSize(vs: seq<Value>): nat
    decreases vs, 0
  {
    if vs == [] then 0 else 1 + Size(vs[0]) + ValuesSize(vs[1..])
  }

  function FieldsSize(fs: seq<Field>): nat
    decreases fs, 0
  {
    if fs == [] then 0 else 1 + Size(fs[0].value) + FieldsSize(fs[1..])
  }

  function BlockSize(b: Block): nat
    decreases b, 1
  {
    1 + ElementsSize(b.elements)
  }

  function ElementsSize(es: seq<Element>): nat
    decreases es, 0
  {
    if es == [] then 0 else 1 + ElementSize(es[0]) + ElementsSize(es[1..])
  }

  function ElementSize(e: Element): nat
    decreases e, 0
  {
    match e
    case Expr(value) => 1 + Size(value)
    case Local(_, initializer) => if initializer.Some? then 1 + Size(initializer.value) else 0
  }

  function FieldValues(fs: seq<Field>): (vs: seq<Value>)
    ensures |vs| == |fs| && forall i | 0 <= i < |fs| :: vs[i] == fs[i].value
    ensures ValuesSize(vs) == FieldsSize(fs)
  {
    if fs == [] then [] else [fs[0].value] + FieldValues(fs[1..])
  }

  /** The same field names with new values. */
  function WithValues(fs: seq<Field>, vs: seq<Value>): (r: seq<Field>)
    requires |fs| == |vs|
  {
    seq(|fs|, i requires 0 <= i < |fs| => Field(fs[i].name, vs[i]))
  }
}
