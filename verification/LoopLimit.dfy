/** Exactly when a run takes the loop counter past its limit: when it enters the body of a while loop with the counter
    already at the limit, because the condition spent what was left. */
module LoopLimit {
  import opened Wrappers
  import L = Literals
  import opened Hir
  import opened Evaluation
  import opened NormalForms
  import opened LoopBudget

  // ---------------------------------------------------------------------------
  // Runs that enter a while body with the budget spent
  // ---------------------------------------------------------------------------

  /** Somewhere in the evaluation of `e` from `s` the condition of a while loop comes out true with the counter at or
      above the limit, so that the body is entered all the same. */
  predicate Overspends(c: Config, s: State, e: Value)
    decreases LoopLeft(c, s), DepthLeft(c, s), if IsNormal(e) then 0 else 1, Size(e), 2
  {
    if IsOperation(e) then OperationOverspends(c, s, e)
    else if IsControl(e) then ControlOverspends(c, s, e)
    else IsAggregate(e) && ListOverspends(c, s, Components(e))
  }

  predicate OperationOverspends(c: Config, s: State, e: Value)
    requires IsOperation(e)
    decreases LoopLeft(c, s), DepthLeft(c, s), 1, Size(e), 1
  {
    match e
    case Binary(left, op, right) => BinaryOverspends(c, s, left, op, right)
    case Unary(_, operand) => Overspends(c, s, operand)
    case Cast(expr, _) => Overspends(c, s, expr)
    case FieldAccess(expr, _) => Overspends(c, s, expr)
    case IndexAccess(collection, index) => PairOverspends(c, s, collection, index)
    case Assign(_, rhs) => Overspends(c, s, rhs)
  }

  predicate ControlOverspends(c: Config, s: State, e: Value)
    requires IsControl(e)
    decreases LoopLeft(c, s), DepthLeft(c, s), 1, Size(e), 1
  {
    match e
    case If(condition, thenBlock, elseBlock) => IfOverspends(c, s, condition, thenBlock, elseBlock)
    case While(condition, body) => WhileOverspends(c, s, condition, body)
    case Loop(body) => LoopOverspends(c, s, body)
    case Return(expr) => Overspends(c, s, expr)
    case BlockExpr(block) => BlockOverspends(c, s, block)
    case Call(callee, positional, named) => CallOverspends(c, s, callee, positional, named)
  }

  predicate BinaryOverspends(c: Config, s: State, left: Value, op: L.BinaryOp, right: Value)
    decreases LoopLeft(c, s), DepthLeft(c, s), 1, 1 + Size(left) + Size(right), 0
  {
    var (s1, l) := Eval(c, s, left);
    || Overspends(c, s, left)
    || (l.Ok? && EvaluatesRight(op, l.value) && Overspends(c, s1, right))
  }

  /** A short-circuit operator evaluates its right operand only after the neutral boolean. */
  predicate EvaluatesRight(op: L.BinaryOp, l: Normal) {
    op.LogicAnd? || op.LogicOr? ==> l.Bool? && l.b == op.LogicAnd?
  }

  predicate PairOverspends(c: Config, s: State, first: Value, second: Value)
    decreases LoopLeft(c, s), DepthLeft(c, s), 1, 1 + Size(first) + Size(second), 0
  {
    var (s1, v) := Eval(c, s, first);
    Overspends(c, s, first) || (v.Ok? && Overspends(c, s1, second))
  }

  predicate IfOverspends(c: Config, s: State, condition: Value, thenBlock: Block, elseBlock: Option<Block>)
    decreases LoopLeft(c, s), DepthLeft(c, s), 1,
              1 + Size(condition) + BlockSize(thenBlock) + (if elseBlock.Some? then BlockSize(elseBlock.value) else 0), 0
  {
    var (s1, v) := Eval(c, s, condition);
    || Overspends(c, s, condition)
    || (v.Ok? && v.value.Bool? && v.value.b && BlockOverspends(c, s1, thenBlock))
    || (v.Ok? && v.value.Bool? && !v.value.b && elseBlock.Some? && BlockOverspends(c, s1, elseBlock.value))
  }

  predicate ListOverspends(c: Config, s: State, es: seq<Value>)
    decreases LoopLeft(c, s), DepthLeft(c, s), if AllNormal(es) then 0 else 1, ValuesSize(es), 0
  {
    es != [] &&
    var (s1, v) := Eval(c, s, es[0]);
    Overspends(c, s, es[0]) || (v.Ok? && ListOverspends(c, s1, es[1..]))
  }

  predicate CallOverspends(c: Config, s: State, callee: Value, positional: seq<Value>, named: seq<Field>)
    decreases LoopLeft(c, s), DepthLeft(c, s), 1, 1 + Size(callee) + ValuesSize(positional) + FieldsSize(named), 0
  {
    var (s1, f) := Eval(c, s, callee);
    Overspends(c, s, callee) || (f.Ok? && CallWithOverspends(c, s1, f.value, positional, named))
  }

  predicate CallWithOverspends(c: Config, s: State, f: Normal, positional: seq<Value>, named: seq<Field>)
    decreases LoopLeft(c, s), DepthLeft(c, s), 1, ValuesSize(positional) + FieldsSize(named), 2
  {
    var (s1, args) := EvalArguments(c, s, positional, named);
    || ArgumentsOverspend(c, s, positional, named)
    || (args.AllOk? && f.FunctionSymbol? && FunctionOverspends(c, s1, f.func, args.values))
  }

  predicate ArgumentsOverspend(c: Config, s: State, positional: seq<Value>, named: seq<Field>)
    decreases LoopLeft(c, s), DepthLeft(c, s), 1, ValuesSize(positional) + FieldsSize(named), 1
  {
    var (s1, ps) := EvalList(c, s, positional);
    ListOverspends(c, s, positional) || (ps.AllOk? && ListOverspends(c, s1, FieldValues(named)))
  }

  predicate FunctionOverspends(c: Config, s: State, name: Name, args: seq<Normal>)
    decreases LoopLeft(c, s), DepthLeft(c, s), 0, 0, 0
  {
    var f := FunctionNamed(c, name);
    && s.callDepth < c.callDepthLimit
    && !(f.isUnsafe && s.safety.Safe?)
    && f.body.Some?
    && ElementsOverspend(c, Entered(s, f, args), f.body.value)
  }

  /** The state in which a function body starts. */
  function Entered(s: State, f: Function, args: seq<Normal>): State {
    s.(callDepth := s.callDepth + 1, frames := s.frames + [Frame(map[], BindParams(f.params, args))])
  }

  /** The budget is spent when the condition is true at the limit: this is the only place where a body is entered
      without the counter having just been compared with the limit. */
  predicate WhileOverspends(c: Config, s: State, condition: Value, body: Block)
    decreases LoopLeft(c, s), DepthLeft(c, s), 1,
              if s.loopCount >= c.loopLimit then 0 else 1 + Size(condition) + BlockSize(body), 1
  {
    s.loopCount < c.loopLimit &&
    var (s1, v) := Eval(c, s, condition);
    || Overspends(c, s, condition)
    || (v == Ok(Bool(true)) && PassOverspends(c, s1, condition, body))
  }

  predicate PassOverspends(c: Config, s: State, condition: Value, body: Block)
    decreases LoopLeft(c, s), DepthLeft(c, s), 1, 1 + BlockSize(body), 0
  {
    var (s1, step) := EvalIteration(c, s, body);
    || s.loopCount >= c.loopLimit
    || BlockOverspends(c, s.(loopCount := s.loopCount + 1), body)
    || (step.GoOn? && WhileOverspends(c, s1, condition, body))
  }

  predicate LoopOverspends(c: Config, s: State, body: Block)
    decreases LoopLeft(c, s), DepthLeft(c, s), 1, 1 + BlockSize(body), 0
  {
    s.loopCount < c.loopLimit &&
    var (s1, step) := EvalIteration(c, s, body);
    || BlockOverspends(c, s.(loopCount := s.loopCount + 1), body)
    || (step.GoOn? && LoopOverspends(c, s1, body))
  }

  predicate BlockOverspends(c: Config, s: State, b: Block)
    decreases LoopLeft(c, s), DepthLeft(c, s), 1, BlockSize(b), 0
  {
    ElementsOverspend(c, s.(safety := b.safety), b.elements)
  }

  predicate ElementsOverspend(c: Config, s: State, es: seq<Element>)
    decreases LoopLeft(c, s), DepthLeft(c, s), 1, ElementsSize(es), 0
  {
    es != [] &&
    var (s1, v) := EvalElement(c, s, es[0]);
    ElementOverspends(c, s, es[0]) || (v.Ok? && ElementsOverspend(c, s1, es[1..]))
  }

  predicate ElementOverspends(c: Config, s: State, e: Element)
    decreases LoopLeft(c, s), DepthLeft(c, s), 1, ElementSize(e), 0
  {
    match e
    case Expr(value) => Overspends(c, s, value)
    case Local(_, None) => false
    case Local(_, Some(init)) => Overspends(c, s, init)
  }

  // ---------------------------------------------------------------------------
  // The counter passes the limit exactly in those runs
  // ---------------------------------------------------------------------------

  /** The counter is beyond the limit afterwards exactly when it was before or the budget was overspent in between. */
  predicate PassesIff(c: Config, s: State, t: State, spent: bool) {
    t.loopCount > c.loopLimit <==> s.loopCount > c.loopLimit || spent
  }

  lemma {:induction false} EvalPasses(c: Config, s: State, e: Value)
    ensures PassesIff(c, s, Eval(c, s, e).0, Overspends(c, s, e))
    decreases LoopLeft(c, s), DepthLeft(c, s), if IsNormal(e) then 0 else 1, Size(e), 2
  {
    hide BelowTopSame, EvalOperation, EvalControl, EvalList, OperationOverspends, ControlOverspends, ListOverspends;
    if IsOperation(e) {
      OperationPasses(c, s, e);
    } else if IsControl(e) {
      ControlPasses(c, s, e);
    } else if IsAggregate(e) {
      ListPasses(c, s, Components(e));
    }
  }

  lemma {:induction false} OperationPasses(c: Config, s: State, e: Value)
    requires IsOperation(e)
    ensures PassesIff(c, s, EvalOperation(c, s, e).0, OperationOverspends(c, s, e))
    decreases LoopLeft(c, s), DepthLeft(c, s), 1, Size(e), 1
  {
    hide BelowTopSame, Eval, Overspends, BinaryOverspends, PairOverspends, EvalBinary, EvalFieldAccess, EvalIndexAccess;
    match e
    case Binary(left, op, right) => BinaryPasses(c, s, left, op, right);
    case Unary(op, operand) => EvalPasses(c, s, operand);
    case Cast(expr, target) => EvalPasses(c, s, expr);
    case FieldAccess(expr, x) =>
      EvalPasses(c, s, expr);
      FieldAccessReadsField(c, s, expr, x);
    case IndexAccess(collection, index) => IndexPasses(c, s, collection, index);
    case Assign(place, rhs) => EvalPasses(c, s, rhs);
  }

  lemma {:induction false} ControlPasses(c: Config, s: State, e: Value)
    requires IsControl(e)
    ensures PassesIff(c, s, EvalControl(c, s, e).0, ControlOverspends(c, s, e))
    decreases LoopLeft(c, s), DepthLeft(c, s), 1, Size(e), 1
  {
    hide BelowTopSame, Eval, Overspends, IfOverspends, WhileOverspends, LoopOverspends, BlockOverspends, CallOverspends,
      EvalIf, EvalWhile, EvalLoop, EvalBlock, EvalCall;
    match e
    case If(condition, thenBlock, elseBlock) => IfPasses(c, s, condition, thenBlock, elseBlock);
    case While(condition, body) => WhilePasses(c, s, condition, body);
    case Loop(body) => LoopPasses(c, s, body);
    case Return(expr) => EvalPasses(c, s, expr);
    case BlockExpr(block) => BlockPasses(c, s, block);
    case Call(callee, positional, named) => CallPasses(c, s, callee, positional, named);
  }

  lemma {:induction false} BinaryPasses(c: Config, s: State, left: Value, op: L.BinaryOp, right: Value)
    ensures PassesIff(c, s, EvalBinary(c, s, left, op, right).0, BinaryOverspends(c, s, left, op, right))
    decreases LoopLeft(c, s), DepthLeft(c, s), 1, 1 + Size(left) + Size(right), 0
  {
    hide BelowTopSame, Eval, Overspends;
    EvalPasses(c, s, left);
    EvalPasses(c, Eval(c, s, left).0, right);
  }

  lemma {:induction false} IndexPasses(c: Config, s: State, collection: Value, index: Value)
    ensures PassesIff(c, s, EvalIndexAccess(c, s, collection, index).0, PairOverspends(c, s, collection, index))
    decreases LoopLeft(c, s), DepthLeft(c, s), 1, 1 + Size(collection) + Size(index), 0
  {
    hide BelowTopSame, Eval, Overspends, ElementAt;
    EvalPasses(c, s, collection);
    var (s1, v) := Eval(c, s, collection);
    EvalPasses(c, s1, index);
    var (s2, i) := Eval(c, s1, index);
    if v.Ok? && i.Ok? && ElementAt(v.value, i.value).Ok? {
      NormalIsFixed(c, s2, ElementAt(v.value, i.value).value);
    }
  }

  lemma {:induction false} IfPasses(c: Config, s: State, condition: Value, thenBlock: Block, elseBlock: Option<Block>)
    ensures PassesIff(c, s, EvalIf(c, s, condition, thenBlock, elseBlock).0,
                      IfOverspends(c, s, condition, thenBlock, elseBlock))
    decreases LoopLeft(c, s), DepthLeft(c, s), 1,
              1 + Size(condition) + BlockSize(thenBlock) + (if elseBlock.Some? then BlockSize(elseBlock.value) else 0), 0
  {
    hide BelowTopSame, Eval, EvalBlock, Overspends, BlockOverspends;
    EvalPasses(c, s, condition);
    var s1 := Eval(c, s, condition).0;
    BlockPasses(c, s1, thenBlock);
    if elseBlock.Some? {
      BlockPasses(c, s1, elseBlock.value);
    }
  }

  lemma {:induction false} ListPasses(c: Config, s: State, es: seq<Value>)
    ensures PassesIff(c, s, EvalList(c, s, es).0, ListOverspends(c, s, es))
    decreases LoopLeft(c, s), DepthLeft(c, s), if AllNormal(es) then 0 else 1, ValuesSize(es), 0
  {
    hide BelowTopSame, Eval, Overspends, Hir.IsNormal;
    if es != [] {
      EvalPasses(c, s, es[0]);
      var (s1, v) := Eval(c, s, es[0]);
      if v.Ok? {
        ListPasses(c, s1, es[1..]);
      }
    }
  }

  lemma {:induction false} CallPasses(c: Config, s: State, callee: Value, positional: seq<Value>, named: seq<Field>)
    ensures PassesIff(c, s, EvalCall(c, s, callee, positional, named).0, CallOverspends(c, s, callee, positional, named))
    decreases LoopLeft(c, s), DepthLeft(c, s), 1, 1 + Size(callee) + ValuesSize(positional) + FieldsSize(named), 0
  {
    hide BelowTopSame, Eval, CallWith, Overspends, CallWithOverspends;
    EvalPasses(c, s, callee);
    var (s1, f) := Eval(c, s, callee);
    if f.Ok? {
      CallWithPasses(c, s1, f.value, positional, named);
    }
  }

  lemma {:induction false} CallWithPasses(c: Config, s: State, f: Normal, positional: seq<Value>, named: seq<Field>)
    ensures PassesIff(c, s, CallWith(c, s, f, positional, named).0, CallWithOverspends(c, s, f, positional, named))
    decreases LoopLeft(c, s), DepthLeft(c, s), 1, ValuesSize(positional) + FieldsSize(named), 2
  {
    hide BelowTopSame, EvalArguments, EvalFunction, ArgumentsOverspend, FunctionOverspends;
    ArgumentsPass(c, s, positional, named);
    var (s1, args) := EvalArguments(c, s, positional, named);
    if args.AllOk? && f.FunctionSymbol? {
      FunctionPasses(c, s1, f.func, args.values);
    }
  }

  lemma {:induction false} ArgumentsPass(c: Config, s: State, positional: seq<Value>, named: seq<Field>)
    ensures PassesIff(c, s, EvalArguments(c, s, positional, named).0, ArgumentsOverspend(c, s, positional, named))
    decreases LoopLeft(c, s), DepthLeft(c, s), 1, ValuesSize(positional) + FieldsSize(named), 1
  {
    hide BelowTopSame, EvalList, ListOverspends, Hir.IsNormal;
    ListPasses(c, s, positional);
    var (s1, ps) := EvalList(c, s, positional);
    if ps.AllOk? {
      ListPasses(c, s1, FieldValues(named));
    }
  }

  lemma {:induction false} FunctionPasses(c: Config, s: State, name: Name, args: seq<Normal>)
    ensures PassesIff(c, s, EvalFunction(c, s, name, args).0, FunctionOverspends(c, s, name, args))
    decreases LoopLeft(c, s), DepthLeft(c, s), 0, 0, 0
  {
    hide BelowTopSame, EvalElements, ElementsOverspend;
    var f := FunctionNamed(c, name);
    if s.callDepth < c.callDepthLimit && f.body.Some? {
      ElementsPass(c, Entered(s, f, args), f.body.value, Unit);
    }
  }

  lemma {:induction false} WhilePasses(c: Config, s: State, condition: Value, body: Block)
    ensures PassesIff(c, s, EvalWhile(c, s, condition, body).0, WhileOverspends(c, s, condition, body))
    decreases LoopLeft(c, s), DepthLeft(c, s), 1,
              if s.loopCount >= c.loopLimit then 0 else 1 + Size(condition) + BlockSize(body), 1
  {
    hide BelowTopSame, Eval, WhileWith, Overspends, PassOverspends;
    if s.loopCount < c.loopLimit {
      EvalPasses(c, s, condition);
      var (s1, v) := Eval(c, s, condition);
      if v == Ok(Bool(true)) {
        PassPasses(c, s1, condition, body);
      } else if v.Ok? {
        FalseConditionEnds(c, s1, v.value, condition, body);
      }
    }
  }

  lemma {:induction false} FalseConditionEnds(c: Config, s: State, v: Normal, condition: Value, body: Block)
    requires v != Bool(true)
    ensures WhileWith(c, s, v, condition, body).0 == s
  {
  }

  lemma {:induction false} PassPasses(c: Config, s: State, condition: Value, body: Block)
    ensures PassesIff(c, s, WhileWith(c, s, Bool(true), condition, body).0, PassOverspends(c, s, condition, body))
    decreases LoopLeft(c, s), DepthLeft(c, s), 1, 1 + BlockSize(body), 0
  {
    hide BelowTopSame, EvalWhile, EvalBlock, WhileOverspends, BlockOverspends;
    BlockPasses(c, s.(loopCount := s.loopCount + 1), body);
    var (s1, step) := EvalIteration(c, s, body);
    if step.GoOn? {
      WhilePasses(c, s1, condition, body);
    }
  }

  lemma {:induction false} LoopPasses(c: Config, s: State, body: Block)
    ensures PassesIff(c, s, EvalLoop(c, s, body).0, LoopOverspends(c, s, body))
    decreases LoopLeft(c, s), DepthLeft(c, s), 1, 1 + BlockSize(body), 0
  {
    hide BelowTopSame, EvalBlock, BlockOverspends;
    if s.loopCount < c.loopLimit {
      BlockPasses(c, s.(loopCount := s.loopCount + 1), body);
      var (s1, step) := EvalIteration(c, s, body);
      if step.GoOn? {
        LoopPasses(c, s1, body);
      }
    }
  }

  lemma {:induction false} BlockPasses(c: Config, s: State, b: Block)
    ensures PassesIff(c, s, EvalBlock(c, s, b).0, BlockOverspends(c, s, b))
    decreases LoopLeft(c, s), DepthLeft(c, s), 1, BlockSize(b), 0
  {
    hide BelowTopSame, EvalElements, ElementsOverspend;
    ElementsPass(c, s.(safety := b.safety), b.elements, Unit);
  }

  lemma {:induction false} ElementsPass(c: Config, s: State, es: seq<Element>, last: Normal)
    ensures PassesIff(c, s, EvalElements(c, s, es, last).0, ElementsOverspend(c, s, es))
    decreases LoopLeft(c, s), DepthLeft(c, s), 1, ElementsSize(es), 0
  {
    hide BelowTopSame, EvalElement, ElementOverspends, Hir.IsNormal;
    if es != [] {
      ElementPasses(c, s, es[0]);
      var (s1, v) := EvalElement(c, s, es[0]);
      if v.Ok? {
        ElementsPass(c, s1, es[1..], v.value);
      }
    }
  }

  lemma {:induction false} ElementPasses(c: Config, s: State, e: Element)
    ensures PassesIff(c, s, EvalElement(c, s, e).0, ElementOverspends(c, s, e))
    decreases LoopLeft(c, s), DepthLeft(c, s), 1, ElementSize(e), 0
  {
    hide BelowTopSame, Eval, Overspends, Hir.IsNormal;
    match e
    case Expr(value) => EvalPasses(c, s, value);
    case Local(_, None) =>
    case Local(_, Some(init)) => EvalPasses(c, s, init);
  }

  // ---------------------------------------------------------------------------
  // What a caller can use
  // ---------------------------------------------------------------------------

  /** A run that starts within the limit ends beyond it exactly when it enters some while body with the budget spent. */
  lemma {:induction false} LimitPassedIff(c: Config, s: State, e: Value)
    requires s.loopCount <= c.loopLimit
    ensures Eval(c, s, e).0.loopCount > c.loopLimit <==> Overspends(c, s, e)
  {
    hide Eval, Overspends;
    EvalPasses(c, s, e);
  }

  /** The same for a call. */
  lemma {:induction false} CallPassesLimitIff(c: Config, s: State, name: Name, args: seq<Normal>)
    requires s.loopCount <= c.loopLimit
    ensures EvalFunction(c, s, name, args).0.loopCount > c.loopLimit <==> FunctionOverspends(c, s, name, args)
  {
    hide EvalFunction, FunctionOverspends;
    FunctionPasses(c, s, name, args);
  }

  /** Checkable before the run: when no while condition, here or in a function, can itself loop or call, the budget is
      never overspent. */
  lemma {:induction false} QuietConditionsNeverOverspend(c: Config, s: State, e: Value)
    requires BodiesWithin(c, 0) && Overrun(e) <= 0
    requires s.loopCount <= c.loopLimit
    ensures !Overspends(c, s, e)
  {
    hide Eval, Overspends, Overrun, BodiesWithin;
    LimitPassedIff(c, s, e);
    QuietConditionsKeepTheLimit(c, s, e);
  }

  /** A loop whose own condition and body are quiet: along its passes, the condition comes out true at the limit. */
  predicate EntersSpent(c: Config, s: State, condition: Value, body: Block)
    decreases LoopLeft(c, s)
  {
    s.loopCount < c.loopLimit &&
    var (s1, v) := Eval(c, s, condition);
    v == Ok(Bool(true)) &&
      var (s2, step) := EvalIteration(c, s1, body);
      s1.loopCount >= c.loopLimit || (step.GoOn? && EntersSpent(c, s2, condition, body))
  }

  /** Then the loop passes the limit exactly when one of its own passes is entered with the budget spent. */
  lemma {:induction false} WhilePassesIff(c: Config, s: State, condition: Value, body: Block)
    requires BodiesWithin(c, 0) && Overrun(condition) <= 0 && BlockOverrun(body) <= 0
    requires s.loopCount <= c.loopLimit
    ensures EvalWhile(c, s, condition, body).0.loopCount > c.loopLimit <==> EntersSpent(c, s, condition, body)
    decreases LoopLeft(c, s)
  {
    hide BelowTopSame, Eval, EvalIteration, Overrun, BlockOverrun, BodiesWithin;
    if s.loopCount < c.loopLimit {
      var (s1, v) := Eval(c, s, condition);
      WithinEval(c, 0, s, condition);
      if v == Ok(Bool(true)) {
        if s1.loopCount >= c.loopLimit {
          WhileOvershoots(c, s, condition, body, s1);
        } else {
          var (s2, step) := EvalIteration(c, s1, body);
          WithinIteration(c, 0, s1, body);
          if step.GoOn? {
            WhilePassesIff(c, s2, condition, body);
          }
        }
      } else if v.Ok? {
        FalseConditionEnds(c, s1, v.value, condition, body);
      }
    }
  }
}
