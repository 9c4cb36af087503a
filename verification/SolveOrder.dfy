/** What the logical relation gives a user of the evaluator. */
module SolveOrder {
  import opened FixedWidth
  import L = Literals
  import opened Hir
  import opened Evaluation
  import opened ReturnInsertion
  import opened Retyping
  import opened RetypedEvaluation
  import opened NormalForms

  // ---------------------------------------------------------------------------
  // The exact relation is equality
  // ---------------------------------------------------------------------------

  lemma {:induction false} ExactIsEqual(a: Value, b: Value)
    ensures Rel(Exact, a, b) <==> a == b
    decreases a, 1
  {
    hide Rel;
    if IsOperation(a) {
      ExactOperation(a, b);
    } else if IsControl(a) {
      ExactControl(a, b);
    } else {
      ExactOther(a, b);
    }
  }

  lemma {:induction false} ExactOperation(a: Value, b: Value)
    requires IsOperation(a)
    ensures Rel(Exact, a, b) <==> a == b
    decreases a, 0
  {
    hide RelList, RelFields, RelBlock;
    match a
    case Binary(left, _, right) =>
      if b.Binary? {
        ExactIsEqual(left, b.left);
        ExactIsEqual(right, b.right);
      }
    case Unary(_, operand) => if b.Unary? { ExactIsEqual(operand, b.operand); }
    case Cast(expr, _) => if b.Cast? { ExactIsEqual(expr, b.expr); }
    case FieldAccess(expr, _) => if b.FieldAccess? { ExactIsEqual(expr, b.expr); }
    case IndexAccess(collection, index) =>
      if b.IndexAccess? {
        ExactIsEqual(collection, b.collection);
        ExactIsEqual(index, b.index);
      }
    case Assign(_, rhs) => if b.Assign? { ExactIsEqual(rhs, b.rhs); }
  }

  lemma {:induction false} ExactControl(a: Value, b: Value)
    requires IsControl(a)
    ensures Rel(Exact, a, b) <==> a == b
    decreases a, 0
  {
    hide RelList, RelFields, RelBlock;
    match a
    case If(condition, yes, no) =>
      if b.If? {
        ExactIsEqual(condition, b.condition);
        ExactBlock(yes, b.thenBlock);
        if no.Some? && b.elseBlock.Some? {
          ExactBlock(no.value, b.elseBlock.value);
        }
      }
    case While(condition, body) =>
      if b.While? {
        ExactIsEqual(condition, b.condition);
        ExactBlock(body, b.body);
      }
    case Loop(body) => if b.Loop? { ExactBlock(body, b.body); }
    case Return(expr) => if b.Return? { ExactIsEqual(expr, b.expr); }
    case BlockExpr(block) => if b.BlockExpr? { ExactBlock(block, b.block); }
    case Call(callee, positional, named) =>
      if b.Call? {
        ExactIsEqual(callee, b.callee);
        ExactList(positional, b.positional);
        ExactFields(named, b.named);
      }
  }

  lemma {:induction false} ExactOther(a: Value, b: Value)
    requires !IsOperation(a) && !IsControl(a)
    ensures Rel(Exact, a, b) <==> a == b
    decreases a, 0
  {
    hide RelList, RelFields, RelBlock;
    match a
    case StructObject(_, fields) => if b.StructObject? { ExactFields(fields, b.fields); }
    case EnumVariant(_, _, payload) => if b.EnumVariant? { ExactIsEqual(payload, b.payload); }
    case List(elements) => if b.List? { ExactList(elements, b.elements); }
    case Tuple(elements) => if b.Tuple? { ExactList(elements, b.elements); }
    case _ => ExactLeaf(a, b);
  }

  lemma {:induction false} ExactLeaf(a: Value, b: Value)
    requires !IsOperation(a) && !IsControl(a)
    requires !a.StructObject? && !a.EnumVariant? && !a.List? && !a.Tuple?
    ensures Rel(Exact, a, b) <==> a == b
  {
    hide RelList, RelFields, RelBlock;
  }

  lemma {:induction false} ExactList(a: seq<Value>, b: seq<Value>)
    ensures RelList(Exact, a, b) <==> a == b
    decreases a, 0
  {
    hide Rel;
    if |a| == |b| {
      forall i | 0 <= i < |a| ensures Rel(Exact, a[i], b[i]) <==> a[i] == b[i] {
        ExactIsEqual(a[i], b[i]);
      }
    }
  }

  lemma {:induction false} ExactFields(a: seq<Field>, b: seq<Field>)
    ensures RelFields(Exact, a, b) <==> a == b
    decreases a, 0
  {
    hide Rel;
    if |a| == |b| {
      forall i | 0 <= i < |a| ensures Rel(Exact, a[i].value, b[i].value) <==> a[i].value == b[i].value {
        ExactIsEqual(a[i].value, b[i].value);
      }
    }
  }

  lemma {:induction false} ExactBlock(a: Block, b: Block)
    ensures RelBlock(Exact, a, b) <==> a == b
    decreases a, 1
  {
    hide RelElements;
    ExactElements(a.elements, b.elements);
  }

  lemma {:induction false} ExactElements(a: seq<Element>, b: seq<Element>)
    ensures RelElements(Exact, a, b) <==> a == b
    decreases a, 0
  {
    hide RelElement;
    if |a| == |b| {
      forall i | 0 <= i < |a| ensures RelElement(Exact, a[i], b[i]) <==> a[i] == b[i] {
        ExactElement(a[i], b[i]);
      }
    }
  }

  lemma {:induction false} ExactElement(a: Element, b: Element)
    ensures RelElement(Exact, a, b) <==> a == b
    decreases a, 0
  {
    hide Rel;
    match a
    case Expr(value) => if b.Expr? { ExactIsEqual(value, b.value); }
    case Local(_, None) =>
    case Local(_, Some(init)) =>
      if b.Local? && b.initializer.Some? {
        ExactIsEqual(init, b.initializer.value);
      }
  }

  lemma {:induction false} ExactBindings(a: map<Name, Normal>, b: map<Name, Normal>)
    ensures RelBindings(Exact, a, b) <==> a == b
  {
    hide Rel;
    if a.Keys == b.Keys {
      forall x | x in a ensures Rel(Exact, a[x], b[x]) <==> a[x] == b[x] {
        ExactIsEqual(a[x], b[x]);
      }
    }
  }

  lemma {:induction false} ExactFrames(a: seq<Frame>, b: seq<Frame>)
    ensures RelFrames(Exact, a, b) <==> a == b
  {
    hide RelBindings;
    if |a| == |b| {
      forall i | 0 <= i < |a| ensures RelFrame(Exact, a[i], b[i]) <==> a[i] == b[i] {
        ExactBindings(a[i].locals, b[i].locals);
        ExactBindings(a[i].params, b[i].params);
      }
    }
  }

  lemma {:induction false} ExactOutcome(a: (State, Result), b: (State, Result))
    requires RelOutcome(Exact, a, b)
    ensures a == b
  {
    hide Rel, RelFrames;
    ExactFrames(a.0.frames, b.0.frames);
    if a.1.Ok? {
      ExactIsEqual(a.1.value, b.1.value);
    } else if a.1.error.Returned? {
      ExactIsEqual(a.1.error.value, b.1.error.value);
    }
  }

  // ---------------------------------------------------------------------------
  // Completing every body with a return
  // ---------------------------------------------------------------------------

  function CompletedFunction(f: Function, returnsUnit: bool): Function {
    if f.body.Some? && EnsureReturn(f.body.value, returnsUnit).Some?
    then f.(body := EnsureReturn(f.body.value, returnsUnit))
    else f
  }

  /** The program after lowering has inserted a return wherever it can. */
  function Completed(c: Config, unitFunctions: set<Name>): Config {
    c.(functions := map f | f in c.functions :: CompletedFunction(c.functions[f], f in unitFunctions))
  }

  /** Inserting the returns leaves every evaluation of every program as it was: state and result. */
  lemma {:induction false} CompletionIsInvisible(c: Config, unitFunctions: set<Name>, s: State, e: Value)
    ensures Eval(Completed(c, unitFunctions), s, e) == Eval(c, s, e)
  {
    hide Rel, RelElements, RelFrames, Eval, EnsureReturn;
    var c' := Completed(c, unitFunctions);
    forall f | f in c.functions ensures RelFunction(Exact, c.functions[f], c'.functions[f]) {
      CompletedFunctionRelated(c.functions[f], f in unitFunctions);
    }
    ExactFrames(s.frames, s.frames);
    ExactIsEqual(e, e);
    EvalRelated(Exact, c, c', s, s, e, e);
    ExactOutcome(Eval(c, s, e), Eval(c', s, e));
  }

  lemma {:induction false} CompletedFunctionRelated(f: Function, returnsUnit: bool)
    ensures RelFunction(Exact, f, CompletedFunction(f, returnsUnit))
  {
    hide Rel, RelElements, EnsureReturn;
    var f' := CompletedFunction(f, returnsUnit);
    if f.body.Some? {
      ExactElements(f'.body.value, f'.body.value);
    }
  }

  // ---------------------------------------------------------------------------
  // Operators give identical literals
  // ---------------------------------------------------------------------------

  predicate IsOperator(e: Value) {
    e.Unary? || e.Cast? || (e.Binary? && !e.op.LogicAnd? && !e.op.LogicOr?)
  }

  /** When a constant's outermost form is an operator or a cast, related programs compute the very same literal,
      kind included: this is what an array length or a refinement bound is read from. */
  lemma {:induction false} OperatorResultsIdentical(m: Mode, c: Config, c': Config, s: State, s': State, e: Value, e': Value)
    requires RelConfig(m, c, c') && RelState(m, s, s') && Rel(m, e, e') && IsOperator(e)
    ensures var r, r' := Eval(c, s, e).1, Eval(c', s', e').1; r.Ok? || r'.Ok? ==> r == r'
  {
    hide BelowTopSame, Eval, EvalOperation, RelState, RelConfig, RelList, RelFields, RelBlock, RelError, Hir.IsNormal;
    match e
    case Unary(op, operand) =>
      UnaryUnfolds(c, s, op, operand);
      UnaryUnfolds(c', s', op, e'.operand);
      EvalRelated(m, c, c', s, s', operand, e'.operand);
      var v, v' := Eval(c, s, operand).1, Eval(c', s', e'.operand).1;
      if v.Ok? {
        SameUnary(m, op, v.value, v'.value);
      }
    case Cast(expr, target) =>
      CastUnfolds(c, s, expr, target);
      CastUnfolds(c', s', e'.expr, target);
      SameLimits(m, c, c');
      EvalRelated(m, c, c', s, s', expr, e'.expr);
      var v, v' := Eval(c, s, expr).1, Eval(c', s', e'.expr).1;
      if v.Ok? {
        SameCast(m, c, c', v.value, v'.value, target);
      }
    case Binary(left, op, right) => BinaryIdentical(m, c, c', s, s', left, e'.left, op, right, e'.right);
  }

  lemma {:induction false} UnaryUnfolds(c: Config, s: State, op: L.UnaryOp, e: Value)
    ensures Eval(c, s, Unary(op, e)).1 == var v := Eval(c, s, e).1; if v.Ok? then UnaryResult(op, v.value) else v
  {
    assert Eval(c, s, Unary(op, e)) == EvalOperation(c, s, Unary(op, e));
  }

  lemma {:induction false} CastUnfolds(c: Config, s: State, e: Value, target: CastTarget)
    ensures Eval(c, s, Cast(e, target)).1 == var v := Eval(c, s, e).1; if v.Ok? then CastResult(c, v.value, target) else v
  {
    assert Eval(c, s, Cast(e, target)) == EvalOperation(c, s, Cast(e, target));
  }

  lemma {:induction false} BinaryUnfolds(c: Config, s: State, left: Value, op: L.BinaryOp, right: Value)
    ensures Eval(c, s, Binary(left, op, right)) == EvalBinary(c, s, left, op, right)
  {
    assert Eval(c, s, Binary(left, op, right)) == EvalOperation(c, s, Binary(left, op, right));
  }

  lemma {:induction false} BinaryIdentical(m: Mode, c: Config, c': Config, s: State, s': State,
                                           left: Value, left': Value, op: L.BinaryOp, right: Value, right': Value)
    requires RelConfig(m, c, c') && RelState(m, s, s') && Rel(m, left, left') && Rel(m, right, right')
    requires !op.LogicAnd? && !op.LogicOr?
    ensures var r, r' := Eval(c, s, Binary(left, op, right)).1, Eval(c', s', Binary(left', op, right')).1;
      r.Ok? || r'.Ok? ==> r == r'
  {
    hide BelowTopSame, Eval, RelState, RelConfig, Rel, RelError, Hir.IsNormal, BinaryResult;
    BinaryUnfolds(c, s, left, op, right);
    BinaryUnfolds(c', s', left', op, right');
    EvalRelated(m, c, c', s, s', left, left');
    var (t, v) := Eval(c, s, left);
    var (t', v') := Eval(c', s', left');
    if v.Ok? {
      EvalRelated(m, c, c', t, t', right, right');
      var w, w' := Eval(c, t, right).1, Eval(c', t', right').1;
      if w.Ok? {
        SameBinary(m, op, v.value, v'.value, w.value, w'.value);
      }
    }
  }

  // ---------------------------------------------------------------------------
  // Indexing is the one place where the kind shows
  // ---------------------------------------------------------------------------

  /** Two integers with the same image select alike exactly when both or neither kind may index,
      or when the image is too large for any index. */
  lemma {:induction false} IndexAgreesExactly(i: Value, i': Value)
    requires IsIntegerLiteral(i) && IsIntegerLiteral(i') && IntegerWord(i) == IntegerWord(i')
    ensures IndexOf(i) == IndexOf(i') <==>
            (KindIndexes(i) <==> KindIndexes(i')) || IntegerWord(i) >= 0x1_0000_0000_0000_0000
  {
    if KindIndexes(i) {
      SmallImage(i.i.value);
    }
    if KindIndexes(i') {
      SmallImage(i'.i.value);
    }
  }

  /** An untyped index is refused where the same index with a kind is accepted. */
  lemma {:induction false} UntypedIndexDiffers(c: Config, s: State)
    ensures EvalIndexAccess(c, s, List([Unit]), Int(MachineInt(U64, 0))) == (s, Ok(Unit))
    ensures EvalIndexAccess(c, s, List([Unit]), InferredInteger(0)) == (s, Err(TypeError))
    ensures Rel(SameImage, Int(MachineInt(U64, 0)), InferredInteger(0))
  {
    hide Eval;
    var collection := List([Unit]);
    assert IsNormal(collection);
    NormalIsFixed(c, s, collection);
    NormalIsFixed(c, s, Int(MachineInt(U64, 0)));
    NormalIsFixed(c, s, InferredInteger(0));
    IndexAccessReadsElement(c, s, collection, Int(MachineInt(U64, 0)), s, collection, s, Int(MachineInt(U64, 0)));
  }
}
