/** The compile-time evaluator as a function from a state to a state and a result.

    The functions below are the specification the class in Evaluator.dfy is proved against.
    Their own contracts carry the stack discipline, which is also what makes them terminate. */
module Evaluation {
  import opened Wrappers
  import opened FixedWidth
  import L = Literals
  import opened Hir

  datatype EvalError =
    | BreakOut(loopLabel: Option<Name>)
    | ContinueOut(loopLabel: Option<Name>)
    | Returned(value: Normal)
    | DivisionByZero
    | ModuloByZero
    | ShiftAmountError
    | TypeError
    | LoopLimitExceeded
    | CallDepthExceeded
    | OutOfBoundsAccess
    | Unsupported(what: string)
    | UnsafeInSafeContext

  datatype Result = Ok(value: Normal) | Err(error: EvalError)

  datatype ListResult = AllOk(values: seq<Normal>) | ListErr(error: EvalError)

  datatype Frame = Frame(locals: map<Name, Normal>, params: map<Name, Normal>)

  datatype State = State(frames: seq<Frame>, loopCount: nat, callDepth: nat, safety: Safety)

  datatype Config = Config(pointerBits: nat, loopLimit: nat, callDepthLimit: nat, functions: map<Name, Function>)

  // ---------------------------------------------------------------------------
  // Literals
  // ---------------------------------------------------------------------------

  /** The 128-bit word behind an integer-like value. */
  function IntegerWord(v: Value): Word128 {
    match v
    case Int(i) => Image(i.value)
    case Bool(b) => if b then 1 else 0
    case InferredInteger(w) => w
    case _ => 0
  }

  /** The smallest of I32, I64, U64 and U128 that holds an unsigned word. */
  function NormalizeInteger(raw: Word128): MachineInt {
    if raw < 0x8000_0000 then MachineInt(I32, raw)
    else if raw < 0x8000_0000_0000_0000 then MachineInt(I64, raw)
    else if raw < 0x1_0000_0000_0000_0000 then MachineInt(U64, raw)
    else MachineInt(U128, raw)
  }

  function TryToLit(v: Value): Option<L.Lit> {
    match v
    case Unit => Some(L.LUnit)
    case Bool(_) => Some(L.LInt(NormalizeInteger(IntegerWord(v))))
    case Int(_) => Some(L.LInt(NormalizeInteger(IntegerWord(v))))
    case InferredInteger(_) => Some(L.LInt(NormalizeInteger(IntegerWord(v))))
    case _ => None
  }

  function FromLit(l: L.Lit): Normal {
    match l
    case LUnit => Unit
    case LBool(b) => Bool(b)
    case LInt(i) => Int(i)
  }

  function FromLitResult(r: L.LitResult): Result {
    match r
    case LOk(l) => Ok(FromLit(l))
    case LErr(LTypeError) => Err(TypeError)
    case LErr(LDivisionByZero) => Err(DivisionByZero)
    case LErr(LModuloByZero) => Err(ModuloByZero)
    case LErr(LShiftAmountError) => Err(ShiftAmountError)
  }

  function BinaryResult(op: L.BinaryOp, l: Value, r: Value): Result
    requires !op.LogicAnd? && !op.LogicOr?
  {
    var a, b := TryToLit(l), TryToLit(r);
    if a.None? || b.None? then Err(TypeError) else FromLitResult(L.Binary(op, a.value, b.value))
  }

  function UnaryResult(op: L.UnaryOp, v: Value): Result {
    var a := TryToLit(v);
    if a.None? then Err(TypeError) else FromLitResult(L.Unary(op, a.value))
  }

  /** What a cast carries over: nothing, or an integer before truncation. */
  datatype CastBridge = BridgeUnit | BridgeInt(v: int)

  function ToBridge(v: Value): Option<CastBridge> {
    match v
    case Unit => Some(BridgeUnit)
    case Bool(b) => Some(BridgeInt(if b then 1 else 0))
    case Int(i) => Some(BridgeInt(i.value))
    case InferredInteger(w) => Some(BridgeInt(w))
    case _ => None
  }

  function CastResult(c: Config, v: Value, target: CastTarget): Result {
    var bridge := ToBridge(v);
    if bridge.None? then Err(TypeError)
    else
      match target
      case ToUnit => Ok(Unit)
      case ToInt(k) => if bridge.value.BridgeInt? then Ok(Int(Wrapped(k, bridge.value.v))) else Err(TypeError)
      case ToUSize =>
        if bridge.value.BridgeInt? then Ok(Int(Wrapped(USize(c.pointerBits), bridge.value.v))) else Err(TypeError)
      case ToOther => Err(TypeError)
  }

  // ---------------------------------------------------------------------------
  // Frames and lookups
  // ---------------------------------------------------------------------------

  function GetBinding(f: Frame, x: Name): Option<Normal> {
    if x in f.locals then Some(f.locals[x]) else if x in f.params then Some(f.params[x]) else None
  }

  function SetBinding(f: Frame, x: Name, v: Normal): Frame {
    f.(locals := f.locals[x := v])
  }

  /** The innermost binding, searching every frame from the top down. */
  function LookupBinding(frames: seq<Frame>, x: Name): Option<Normal> {
    if frames == [] then None
    else
      var top := GetBinding(frames[|frames| - 1], x);
      if top.Some? then top else LookupBinding(frames[..|frames| - 1], x)
  }

  function LookupResult(s: State, x: Name): Result {
    var b := LookupBinding(s.frames, x);
    if b.Some? then Ok(b.value) else Err(TypeError)
  }

  function BindTop(s: State, x: Name, v: Normal): State {
    if s.frames == [] then s
    else
      var n := |s.frames| - 1;
      s.(frames := s.frames[..n] + [SetBinding(s.frames[n], x, v)])
  }

  function AssignResult(s: State, place: Value, v: Normal): (State, Result) {
    if !place.LocalVariableSymbol? then (s, Err(Unsupported("assignment to non-local")))
    else if s.frames == [] then (s, Err(TypeError))
    else (BindTop(s, place.name, v), Ok(Unit))
  }

  /** Parameters bound to arguments from the left; a missing argument is unit, a repeated name keeps the last one. */
  function BindParams(params: seq<Name>, args: seq<Normal>): map<Name, Normal> {
    if params == [] then map[]
    else
      var n := |params| - 1;
      BindParams(params[..n], args)[params[n] := if n < |args| then args[n] else Unit]
  }

  /** A name without a definition is a placeholder without parameters and without a body. */
  function FunctionNamed(c: Config, f: Name): Function {
    if f in c.functions then c.functions[f] else Function([], false, None)
  }

  function FindField(fields: seq<Field>, x: Name): Option<Value> {
    if fields == [] then None
    else if fields[0].name == x then Some(fields[0].value)
    else FindField(fields[1..], x)
  }

  function IndexOf(v: Value): Option<nat> {
    if v.Int? && !v.i.kind.I128? && !v.i.kind.U128? && 0 <= v.i.value then Some(v.i.value) else None
  }

  /** The element an index access re-evaluates. */
  function ElementAt(collection: Value, index: Value): Result
    requires IsNormal(collection)
  {
    var i := IndexOf(index);
    if i.None? then Err(TypeError)
    else if !collection.List? && !collection.Tuple? then Err(TypeError)
    else if i.value < |collection.elements| then
      Ok(collection.elements[i.value])
    else Err(OutOfBoundsAccess)
  }

  predicate AllNormal(vs: seq<Value>) {
    forall i | 0 <= i < |vs| :: IsNormal(vs[i])
  }

  predicate IsAggregate(e: Value) {
    e.StructObject? || e.EnumVariant? || e.List? || e.Tuple?
  }

  function Components(e: Value): (vs: seq<Value>)
    requires IsAggregate(e)
    ensures IsNormal(e) <==> AllNormal(vs)
    ensures ValuesSize(vs) < Size(e)
  {
    match e
    case StructObject(_, fields) =>
      FieldValues(fields)
    case EnumVariant(_, _, payload) =>
      assert [payload][0] == payload;
      [payload]
    case List(elements) => elements
    case Tuple(elements) => elements
  }

  /** The aggregate with other components in the same places. */
  function Rebuild(e: Value, vs: seq<Normal>): Normal
    requires IsAggregate(e) && |vs| == |Components(e)|
  {
    match e
    case StructObject(def, fields) => StructObject(def, WithValues(fields, vs))
    case EnumVariant(def, variant, _) => EnumVariant(def, variant, vs[0])
    case List(_) => List(vs)
    case Tuple(_) => Tuple(vs)
  }

  lemma {:induction false} FoundFieldNormal(fields: seq<Field>, x: Name)
    requires forall i | 0 <= i < |fields| :: IsNormal(fields[i].value)
    ensures FindField(fields, x).Some? ==> IsNormal(FindField(fields, x).value)
  {
    if fields != [] {
      FoundFieldNormal(fields[1..], x);
    }
  }

  /** The field value a field access re-evaluates. */
  function FieldOf(v: Value, x: Name): Result
    requires IsNormal(v)
  {
    if !v.StructObject? then Err(TypeError)
    else
      var field := FindField(v.fields, x);
      FoundFieldNormal(v.fields, x);
      if field.Some? then Ok(field.value) else Err(TypeError)
  }

  // ---------------------------------------------------------------------------
  // Discipline and termination measure
  // ---------------------------------------------------------------------------

  /** At most the top frame differs. */
  predicate BelowTopSame(a: seq<Frame>, b: seq<Frame>) {
    |a| == |b| && (|a| > 0 ==> a[..|a| - 1] == b[..|b| - 1])
  }

  /** What every evaluation keeps, whatever its outcome. */
  predicate Disciplined(s: State, t: State) {
    && s.loopCount <= t.loopCount
    && s.callDepth == t.callDepth
    && s.safety == t.safety
    && BelowTopSame(s.frames, t.frames)
  }

  function LoopLeft(c: Config, s: State): nat {
    if s.loopCount < c.loopLimit then c.loopLimit - s.loopCount else 0
  }

  function DepthLeft(c: Config, s: State): nat {
    if s.callDepth < c.callDepthLimit then c.callDepthLimit - s.callDepth else 0
  }

  // ---------------------------------------------------------------------------
  // Evaluation
  // ---------------------------------------------------------------------------

  /** Forms that evaluate no other form and change nothing. */
  function EvalLeaf(s: State, e: Value): Result {
    match e
    case Unit => Ok(e)
    case Bool(_) => Ok(e)
    case Int(_) => Ok(e)
    case InferredInteger(_) => Ok(e)
    case StringLit(_) => Ok(e)
    case BStringLit(_) => Ok(e)
    case FunctionSymbol(_) => Ok(e)
    case LocalVariableSymbol(x) => LookupResult(s, x)
    case ParameterSymbol(x) => LookupResult(s, x)
    case Break(l) => Err(BreakOut(l))
    case Continue(l) => Err(ContinueOut(l))
    case Borrow(_) => Err(Unsupported("borrow"))
    case Deref(_) => Err(Unsupported("deref"))
    case MethodCall(_, _) => Err(Unsupported("method call"))
    case GlobalVariableSymbol(_) => Err(Unsupported("global variable"))
    case _ => Err(Unsupported("range"))
  }

  predicate IsOperation(e: Value) {
    e.Binary? || e.Unary? || e.Cast? || e.FieldAccess? || e.IndexAccess? || e.Assign?
  }

  predicate IsControl(e: Value) {
    e.If? || e.While? || e.Loop? || e.Return? || e.BlockExpr? || e.Call?
  }

  function Eval(c: Config, s: State, e: Value): (r: (State, Result))
    ensures Disciplined(s, r.0)
    decreases LoopLeft(c, s), DepthLeft(c, s), if IsNormal(e) then 0 else 1, Size(e), 2
  {
    if IsOperation(e) then EvalOperation(c, s, e)
    else if IsControl(e) then EvalControl(c, s, e)
    else if IsAggregate(e) then EvalAggregate(c, s, e)
    else (s, EvalLeaf(s, e))
  }

  function EvalOperation(c: Config, s: State, e: Value): (r: (State, Result))
    requires IsOperation(e)
    ensures Disciplined(s, r.0)
    decreases LoopLeft(c, s), DepthLeft(c, s), 1, Size(e), 1
  {
    match e
    case Binary(left, op, right) => EvalBinary(c, s, left, op, right)
    case Unary(op, operand) =>
      var (s1, v) := Eval(c, s, operand);
      if v.Err? then (s1, v) else (s1, UnaryResult(op, v.value))
    case Cast(expr, target) =>
      var (s1, v) := Eval(c, s, expr);
      if v.Err? then (s1, v) else (s1, CastResult(c, v.value, target))
    case FieldAccess(expr, x) => EvalFieldAccess(c, s, expr, x)
    case IndexAccess(collection, index) => EvalIndexAccess(c, s, collection, index)
    case Assign(place, rhs) =>
      var (s1, v) := Eval(c, s, rhs);
      if v.Err? then (s1, v) else AssignResult(s1, place, v.value)
  }

  function EvalControl(c: Config, s: State, e: Value): (r: (State, Result))
    requires IsControl(e)
    ensures Disciplined(s, r.0)
    decreases LoopLeft(c, s), DepthLeft(c, s), 1, Size(e), 1
  {
    match e
    case If(condition, thenBlock, elseBlock) => EvalIf(c, s, condition, thenBlock, elseBlock)
    case While(condition, body) => EvalWhile(c, s, condition, body)
    case Loop(body) => EvalLoop(c, s, body)
    case Return(expr) =>
      var (s1, v) := Eval(c, s, expr);
      if v.Err? then (s1, v) else (s1, Err(Returned(v.value)))
    case BlockExpr(block) => EvalBlock(c, s, block)
    case Call(callee, positional, named) => EvalCall(c, s, callee, positional, named)
  }

  /** Components from left to right, then the aggregate rebuilt from their values. */
  function EvalAggregate(c: Config, s: State, e: Value): (r: (State, Result))
    requires IsAggregate(e)
    ensures Disciplined(s, r.0)
    decreases LoopLeft(c, s), DepthLeft(c, s), if IsNormal(e) then 0 else 1, Size(e), 0
  {
    var (s1, vs) := EvalList(c, s, Components(e));
    if vs.ListErr? then (s1, Err(vs.error)) else (s1, Ok(Rebuild(e, vs.values)))
  }

  function EvalBinary(c: Config, s: State, left: Value, op: L.BinaryOp, right: Value): (r: (State, Result))
    ensures Disciplined(s, r.0)
    decreases LoopLeft(c, s), DepthLeft(c, s), 1, 1 + Size(left) + Size(right), 0
  {
    var (s1, l) := Eval(c, s, left);
    if l.Err? then (s1, l)
    else if op.LogicAnd? || op.LogicOr? then
      if !l.value.Bool? then (s1, Err(TypeError))
      else if l.value.b == op.LogicAnd? then Eval(c, s1, right)
      else (s1, Ok(Bool(op.LogicOr?)))
    else
      var (s2, r) := Eval(c, s1, right);
      if r.Err? then (s2, r) else (s2, BinaryResult(op, l.value, r.value))
  }

  function EvalIf(c: Config, s: State, condition: Value, thenBlock: Block, elseBlock: Option<Block>): (r: (State, Result))
    ensures Disciplined(s, r.0)
    decreases LoopLeft(c, s), DepthLeft(c, s), 1,
              1 + Size(condition) + BlockSize(thenBlock) + (if elseBlock.Some? then BlockSize(elseBlock.value) else 0), 0
  {
    var (s1, v) := Eval(c, s, condition);
    if v.Err? then (s1, v)
    else if !v.value.Bool? then (s1, Err(TypeError))
    else if v.value.b then EvalBlock(c, s1, thenBlock)
    else if elseBlock.Some? then EvalBlock(c, s1, elseBlock.value)
    else (s1, Ok(Unit))
  }

  /** The found field is evaluated a second time. */
  function EvalFieldAccess(c: Config, s: State, expr: Value, x: Name): (r: (State, Result))
    ensures Disciplined(s, r.0)
    decreases LoopLeft(c, s), DepthLeft(c, s), 1, 1 + Size(expr), 0
  {
    var (s1, v) := Eval(c, s, expr);
    if v.Err? then (s1, v)
    else
      var field := FieldOf(v.value, x);
      if field.Err? then (s1, field) else Eval(c, s1, field.value)
  }

  /** The selected element is evaluated a second time. */
  function EvalIndexAccess(c: Config, s: State, collection: Value, index: Value): (r: (State, Result))
    ensures Disciplined(s, r.0)
    decreases LoopLeft(c, s), DepthLeft(c, s), 1, 1 + Size(collection) + Size(index), 0
  {
    var (s1, v) := Eval(c, s, collection);
    if v.Err? then (s1, v)
    else
      var (s2, i) := Eval(c, s1, index);
      if i.Err? then (s2, i)
      else
        var element := ElementAt(v.value, i.value);
        if element.Err? then (s2, element) else Eval(c, s2, element.value)
  }

  /** Callee first, then the arguments; that the callee is a function is checked last. */
  function EvalCall(c: Config, s: State, callee: Value, positional: seq<Value>, named: seq<Field>): (r: (State, Result))
    ensures Disciplined(s, r.0)
    decreases LoopLeft(c, s), DepthLeft(c, s), 1, 1 + Size(callee) + ValuesSize(positional) + FieldsSize(named), 0
  {
    var (s1, f) := Eval(c, s, callee);
    if f.Err? then (s1, f) else CallWith(c, s1, f.value, positional, named)
  }

  function CallWith(c: Config, s: State, f: Normal, positional: seq<Value>, named: seq<Field>): (r: (State, Result))
    ensures Disciplined(s, r.0)
    decreases LoopLeft(c, s), DepthLeft(c, s), 1, ValuesSize(positional) + FieldsSize(named), 2
  {
    var (s1, args) := EvalArguments(c, s, positional, named);
    Apply(c, s1, f, args)
  }

  function Apply(c: Config, s: State, f: Normal, args: ListResult): (r: (State, Result))
    ensures Disciplined(s, r.0)
    decreases LoopLeft(c, s), DepthLeft(c, s), 0, 0, 1
  {
    if args.ListErr? then (s, Err(args.error))
    else if !f.FunctionSymbol? then (s, Err(TypeError))
    else EvalFunction(c, s, f.func, args.values)
  }

  /** Positional arguments, then named ones in the order they are written. */
  function EvalArguments(c: Config, s: State, positional: seq<Value>, named: seq<Field>): (r: (State, ListResult))
    ensures Disciplined(s, r.0)
    decreases LoopLeft(c, s), DepthLeft(c, s), 1, ValuesSize(positional) + FieldsSize(named), 1
  {
    var (s1, ps) := EvalList(c, s, positional);
    if ps.ListErr? then (s1, ps)
    else
      var (s2, ns) := EvalList(c, s1, FieldValues(named));
      if ns.ListErr? then (s2, ns) else (s2, AllOk(ps.values + ns.values))
  }

  /** Left to right, stopping at the first error. */
  function EvalList(c: Config, s: State, es: seq<Value>): (r: (State, ListResult))
    ensures Disciplined(s, r.0)
    ensures r.1.AllOk? ==> |r.1.values| == |es|
    decreases LoopLeft(c, s), DepthLeft(c, s), if AllNormal(es) then 0 else 1, ValuesSize(es), 0
  {
    if es == [] then (s, AllOk([]))
    else
      var (s1, v) := Eval(c, s, es[0]);
      if v.Err? then (s1, ListErr(v.error))
      else
        var (s2, vs) := EvalList(c, s1, es[1..]);
        if vs.ListErr? then (s2, vs) else (s2, AllOk([v.value] + vs.values))
  }

  /** Whether a loop goes round again after its body, or with what result it ends. */
  datatype LoopStep = GoOn | Stop(result: Result)

  /** One counted pass through a loop body; labels on break and continue are not consulted. */
  function EvalIteration(c: Config, s: State, body: Block): (r: (State, LoopStep))
    ensures Disciplined(s, r.0) && s.loopCount < r.0.loopCount
    decreases LoopLeft(c, s), DepthLeft(c, s), 1, BlockSize(body), 1
  {
    var (s1, r) := EvalBlock(c, s.(loopCount := s.loopCount + 1), body);
    (s1, if r.Ok? || r.error.ContinueOut? then GoOn else Stop(if r.error.BreakOut? then Ok(Unit) else r))
  }

  function EvalWhile(c: Config, s: State, condition: Value, body: Block): (r: (State, Result))
    ensures Disciplined(s, r.0)
    decreases LoopLeft(c, s), DepthLeft(c, s), 1,
              if s.loopCount >= c.loopLimit then 0 else 1 + Size(condition) + BlockSize(body), 1
  {
    if s.loopCount >= c.loopLimit then (s, Err(LoopLimitExceeded))
    else
      var (s1, v) := Eval(c, s, condition);
      if v.Err? then (s1, v) else WhileWith(c, s1, v.value, condition, body)
  }

  /** The rest of a pass once the condition has a value; the limit is not checked again before the body. */
  function WhileWith(c: Config, s: State, v: Normal, condition: Value, body: Block): (r: (State, Result))
    ensures Disciplined(s, r.0)
    decreases LoopLeft(c, s), DepthLeft(c, s), 1, 1 + BlockSize(body), 0
  {
    if !v.Bool? then (s, Err(TypeError))
    else if !v.b then (s, Ok(Unit))
    else
      var (s1, step) := EvalIteration(c, s, body);
      if step.GoOn? then EvalWhile(c, s1, condition, body) else (s1, step.result)
  }

  function EvalLoop(c: Config, s: State, body: Block): (r: (State, Result))
    ensures Disciplined(s, r.0)
    decreases LoopLeft(c, s), DepthLeft(c, s), 1, 1 + BlockSize(body), 0
  {
    if s.loopCount >= c.loopLimit then (s, Err(LoopLimitExceeded))
    else
      var (s1, step) := EvalIteration(c, s, body);
      if step.GoOn? then EvalLoop(c, s1, body) else (s1, step.result)
  }

  function EvalBlock(c: Config, s: State, b: Block): (r: (State, Result))
    ensures Disciplined(s, r.0)
    decreases LoopLeft(c, s), DepthLeft(c, s), 1, BlockSize(b), 0
  {
    var (s1, r) := EvalElements(c, s.(safety := b.safety), b.elements, Unit);
    (s1.(safety := s.safety), r)
  }

  /** Elements in order; the result is the last element's value, or `last` when there is none. */
  function EvalElements(c: Config, s: State, es: seq<Element>, last: Normal): (r: (State, Result))
    ensures Disciplined(s, r.0)
    decreases LoopLeft(c, s), DepthLeft(c, s), 1, ElementsSize(es), 0
  {
    if es == [] then (s, Ok(last))
    else
      var (s1, v) := EvalElement(c, s, es[0]);
      if v.Err? then (s1, v) else EvalElements(c, s1, es[1..], v.value)
  }

  function EvalElement(c: Config, s: State, e: Element): (r: (State, Result))
    ensures Disciplined(s, r.0)
    decreases LoopLeft(c, s), DepthLeft(c, s), 1, ElementSize(e), 0
  {
    match e
    case Expr(value) => Eval(c, s, value)
    case Local(x, None) => (BindTop(s, x, Unit), Ok(Unit))
    case Local(x, Some(init)) =>
      var (s1, v) := Eval(c, s, init);
      if v.Err? then (s1, v) else (BindTop(s1, x, v.value), Ok(Unit))
  }

  /** A call leaves the whole frame stack as it found it. */
  function EvalFunction(c: Config, s: State, name: Name, args: seq<Normal>): (r: (State, Result))
    ensures Disciplined(s, r.0)
    ensures r.0.frames == s.frames
    decreases LoopLeft(c, s), DepthLeft(c, s), 0, 0, 0
  {
    if s.callDepth >= c.callDepthLimit then (s, Err(CallDepthExceeded))
    else
      var f := FunctionNamed(c, name);
      if f.isUnsafe && s.safety.Safe? then (s, Err(UnsafeInSafeContext))
      else if f.body.None? then (s, Err(Unsupported("extern function call")))
      else
        var inner := s.(callDepth := s.callDepth + 1, frames := s.frames + [Frame(map[], BindParams(f.params, args))]);
        var (s1, r) := EvalElements(c, inner, f.body.value, Unit);
        (s1.(callDepth := s.callDepth, frames := s1.frames[..|s.frames|]), CatchReturn(r))
  }

  /** A function body turns a `return` into its value; every other error passes through. */
  function CatchReturn(r: Result): Result {
    if r.Err? && r.error.Returned? then Ok(r.error.value) else r
  }
}
