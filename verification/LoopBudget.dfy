/** How far the loop counter can run past its limit.

    A while loop checks the counter before its condition and increments it after, so a condition that
    itself loops or calls can spend the last of the budget in between. The counter may therefore pass the
    limit, by as many steps as loops are nested through while conditions. */
module LoopBudget {
  import opened Wrappers
  import L = Literals
  import opened Hir
  import opened Evaluation

  function Max(a: int, b: int): int {
    if a < b then b else a
  }

  // ---------------------------------------------------------------------------
  // Overrun: -1 when a form can run no loop, otherwise how often a while condition
  // that can loop encloses another loop.
  // ---------------------------------------------------------------------------

  function Overrun(v: Value): (o: int)
    ensures -1 <= o
    decreases v, 0
  {
    match v
    case While(condition, body) => Max(Overrun(condition) + 1, BlockOverrun(body))
    case Loop(body) => Max(0, BlockOverrun(body))
    case Call(callee, positional, named) =>
      Max(0, Max(Overrun(callee), Max(ListOverrun(positional), FieldsOverrun(named))))
    case StructObject(_, fields) => FieldsOverrun(fields)
    case EnumVariant(_, _, payload) => Overrun(payload)
    case List(elements) => ListOverrun(elements)
    case Tuple(elements) => ListOverrun(elements)
    case Binary(left, _, right) => Max(Overrun(left), Overrun(right))
    case Unary(_, operand) => Overrun(operand)
    case Cast(expr, _) => Overrun(expr)
    case If(condition, thenBlock, elseBlock) =>
      Max(Overrun(condition),
          Max(BlockOverrun(thenBlock), if elseBlock.Some? then BlockOverrun(elseBlock.value) else -1))
    case Return(expr) => Overrun(expr)
    case BlockExpr(block) => BlockOverrun(block)
    case FieldAccess(expr, _) => Overrun(expr)
    case IndexAccess(collection, index) => Max(Overrun(collection), Overrun(index))
    case Assign(_, rhs) => Overrun(rhs)
    case _ => -1
  }

  function ListOverrun(vs: seq<Value>): (o: int)
    ensures -1 <= o
    decreases vs, 0
  {
    if vs == [] then -1 else Max(Overrun(vs[0]), ListOverrun(vs[1..]))
  }

  function FieldsOverrun(fs: seq<Field>): (o: int)
    ensures -1 <= o
    decreases fs, 0
  {
    if fs == [] then -1 else Max(Overrun(fs[0].value), FieldsOverrun(fs[1..]))
  }

  function BlockOverrun(b: Block): (o: int)
    ensures -1 <= o
    decreases b, 1
  {
    ElementsOverrun(b.elements)
  }

  function ElementsOverrun(es: seq<Element>): (o: int)
    ensures -1 <= o
    decreases es, 0
  {
    if es == [] then -1 else Max(ElementOverrun(es[0]), ElementsOverrun(es[1..]))
  }

  function ElementOverrun(e: Element): (o: int)
    ensures -1 <= o
    decreases e, 0
  {
    match e
    case Expr(value) => Overrun(value)
    case Local(_, initializer) => if initializer.Some? then Overrun(initializer.value) else -1
  }

  lemma {:induction false} FieldValuesOverrun(fs: seq<Field>)
    ensures ListOverrun(FieldValues(fs)) == FieldsOverrun(fs)
  {
    if fs != [] {
      FieldValuesOverrun(fs[1..]);
      assert FieldValues(fs)[1..] == FieldValues(fs[1..]);
    }
  }

  lemma {:induction false} NormalOverrun(v: Value)
    requires IsNormal(v)
    ensures Overrun(v) == -1
    decreases v, 0
  {
    match v
    case StructObject(_, fields) => NormalFieldsOverrun(fields);
    case EnumVariant(_, _, payload) => NormalOverrun(payload);
    case List(elements) => NormalListOverrun(elements);
    case Tuple(elements) => NormalListOverrun(elements);
    case _ =>
  }

  lemma {:induction false} NormalListOverrun(vs: seq<Value>)
    requires AllNormal(vs)
    ensures ListOverrun(vs) == -1
    decreases vs, 0
  {
    if vs != [] {
      NormalOverrun(vs[0]);
      NormalListOverrun(vs[1..]);
    }
  }

  lemma {:induction false} NormalFieldsOverrun(fs: seq<Field>)
    requires forall i | 0 <= i < |fs| :: IsNormal(fs[i].value)
    ensures FieldsOverrun(fs) == -1
    decreases fs, 0
  {
    if fs != [] {
      NormalOverrun(fs[0].value);
      NormalFieldsOverrun(fs[1..]);
    }
  }

  // ---------------------------------------------------------------------------
  // The bound
  // ---------------------------------------------------------------------------

  /** No function body overruns by more than k. */
  predicate BodiesWithin(c: Config, k: nat) {
    forall f | f in c.functions ::
      c.functions[f].body.Some? ==> ElementsOverrun(c.functions[f].body.value) <= k
  }

  /** The counter after a step whose forms overrun by o: untouched when nothing can loop, otherwise at most
      the limit plus o plus k for every call level that is left. */
  predicate Within(c: Config, k: nat, o: int, s: State, t: State) {
    && t.callDepth == s.callDepth
    && if o < 0 then t.loopCount == s.loopCount
       else t.loopCount <= Max(s.loopCount, c.loopLimit + o + k * DepthLeft(c, s))
  }

  lemma {:induction false} WithinWeaken(c: Config, k: nat, o: int, o': int, s: State, t: State)
    requires Within(c, k, o, s, t) && o <= o'
    ensures Within(c, k, o', s, t)
  {
  }

  lemma {:induction false} WithinTrans(c: Config, k: nat, o: int, o': int, s: State, t: State, u: State)
    requires Within(c, k, o, s, t) && Within(c, k, o', t, u)
    ensures Within(c, k, Max(o, o'), s, u)
  {
  }

  lemma {:induction false} WithinEval(c: Config, k: nat, s: State, e: Value)
    requires BodiesWithin(c, k)
    ensures Within(c, k, Overrun(e), s, Eval(c, s, e).0)
    decreases LoopLeft(c, s), DepthLeft(c, s), if IsNormal(e) then 0 else 1, Size(e), 2
  {
    hide BelowTopSame, EvalOperation, EvalControl, EvalAggregate, BodiesWithin;
    if IsOperation(e) {
      WithinOperation(c, k, s, e);
    } else if IsControl(e) {
      WithinControl(c, k, s, e);
    } else if IsAggregate(e) {
      WithinAggregate(c, k, s, e);
    }
  }

  lemma {:induction false} WithinOperation(c: Config, k: nat, s: State, e: Value)
    requires BodiesWithin(c, k) && IsOperation(e)
    ensures Within(c, k, Overrun(e), s, EvalOperation(c, s, e).0)
    decreases LoopLeft(c, s), DepthLeft(c, s), 1, Size(e), 1
  {
    hide BelowTopSame, Eval, BodiesWithin;
    match e
    case Binary(left, op, right) => WithinBinary(c, k, s, left, op, right);
    case Unary(op, operand) => WithinEval(c, k, s, operand);
    case Cast(expr, target) => WithinEval(c, k, s, expr);
    case FieldAccess(expr, x) => WithinFieldAccess(c, k, s, expr, x);
    case IndexAccess(collection, index) => WithinIndexAccess(c, k, s, collection, index);
    case Assign(place, rhs) => WithinEval(c, k, s, rhs);
  }

  lemma {:induction false} WithinControl(c: Config, k: nat, s: State, e: Value)
    requires BodiesWithin(c, k) && IsControl(e)
    ensures Within(c, k, Overrun(e), s, EvalControl(c, s, e).0)
    decreases LoopLeft(c, s), DepthLeft(c, s), 1, Size(e), 1
  {
    hide BelowTopSame, Eval, BodiesWithin;
    match e
    case If(condition, thenBlock, elseBlock) => WithinIf(c, k, s, condition, thenBlock, elseBlock);
    case While(condition, body) => WithinWhile(c, k, s, condition, body);
    case Loop(body) => WithinLoop(c, k, s, body);
    case Return(expr) => WithinEval(c, k, s, expr);
    case BlockExpr(block) => WithinBlock(c, k, s, block);
    case Call(callee, positional, named) => WithinCall(c, k, s, callee, positional, named);
  }

  lemma {:induction false} WithinAggregate(c: Config, k: nat, s: State, e: Value)
    requires BodiesWithin(c, k) && IsAggregate(e)
    ensures Within(c, k, Overrun(e), s, EvalAggregate(c, s, e).0)
    decreases LoopLeft(c, s), DepthLeft(c, s), if IsNormal(e) then 0 else 1, Size(e), 0
  {
    hide BelowTopSame, Evaluation.Eval, Hir.IsNormal;
    WithinList(c, k, s, Components(e));
    if e.StructObject? {
      FieldValuesOverrun(e.fields);
    } else if e.EnumVariant? {
      assert Components(e)[1..] == [];
    }
  }

  lemma {:induction false} WithinList(c: Config, k: nat, s: State, es: seq<Value>)
    requires BodiesWithin(c, k)
    ensures Within(c, k, ListOverrun(es), s, EvalList(c, s, es).0)
    decreases LoopLeft(c, s), DepthLeft(c, s), if AllNormal(es) then 0 else 1, ValuesSize(es), 0
  {
    hide BelowTopSame, Evaluation.Eval, Hir.IsNormal;
    if es != [] {
      WithinEval(c, k, s, es[0]);
      var (s1, v) := Eval(c, s, es[0]);
      if v.Ok? {
        WithinList(c, k, s1, es[1..]);
      }
    }
  }

  lemma {:induction false} WithinBinary(c: Config, k: nat, s: State, left: Value, op: L.BinaryOp, right: Value)
    requires BodiesWithin(c, k)
    ensures Within(c, k, Max(Overrun(left), Overrun(right)), s, EvalBinary(c, s, left, op, right).0)
    decreases LoopLeft(c, s), DepthLeft(c, s), 1, 1 + Size(left) + Size(right), 0
  {
    hide BelowTopSame, Evaluation.Eval, Hir.IsNormal, Overrun;
    WithinEval(c, k, s, left);
    WithinEval(c, k, Eval(c, s, left).0, right);
  }

  lemma {:induction false} WithinIf(c: Config, k: nat, s: State, condition: Value, thenBlock: Block, elseBlock: Option<Block>)
    requires BodiesWithin(c, k)
    ensures Within(c, k, Overrun(If(condition, thenBlock, elseBlock)), s, EvalIf(c, s, condition, thenBlock, elseBlock).0)
    decreases LoopLeft(c, s), DepthLeft(c, s), 1,
              1 + Size(condition) + BlockSize(thenBlock) + (if elseBlock.Some? then BlockSize(elseBlock.value) else 0), 0
  {
    hide BelowTopSame, Evaluation.Eval, Hir.IsNormal;
    WithinEval(c, k, s, condition);
    var s1 := Eval(c, s, condition).0;
    WithinBlock(c, k, s1, thenBlock);
    if elseBlock.Some? {
      WithinBlock(c, k, s1, elseBlock.value);
    }
  }

  lemma {:induction false} WithinFieldAccess(c: Config, k: nat, s: State, expr: Value, x: Name)
    requires BodiesWithin(c, k)
    ensures Within(c, k, Overrun(expr), s, EvalFieldAccess(c, s, expr, x).0)
    decreases LoopLeft(c, s), DepthLeft(c, s), 1, 1 + Size(expr), 0
  {
    hide BelowTopSame, Evaluation.Eval, Overrun;
    WithinEval(c, k, s, expr);
    var (s1, v) := Eval(c, s, expr);
    if v.Ok? && FieldOf(v.value, x).Ok? {
      var field := FieldOf(v.value, x).value;
      WithinEval(c, k, s1, field);
      NormalOverrun(field);
    }
  }

  lemma {:induction false} WithinIndexAccess(c: Config, k: nat, s: State, collection: Value, index: Value)
    requires BodiesWithin(c, k)
    ensures Within(c, k, Max(Overrun(collection), Overrun(index)), s, EvalIndexAccess(c, s, collection, index).0)
    decreases LoopLeft(c, s), DepthLeft(c, s), 1, 1 + Size(collection) + Size(index), 0
  {
    hide BelowTopSame, Evaluation.Eval, Overrun, FixedWidth.Fits;
    WithinEval(c, k, s, collection);
    var (s1, v) := Eval(c, s, collection);
    WithinEval(c, k, s1, index);
    var (s2, i) := Eval(c, s1, index);
    if v.Ok? && i.Ok? && ElementAt(v.value, i.value).Ok? {
      var element := ElementAt(v.value, i.value).value;
      WithinEval(c, k, s2, element);
      NormalOverrun(element);
    }
  }

  lemma {:induction false} WithinArguments(c: Config, k: nat, s: State, positional: seq<Value>, named: seq<Field>)
    requires BodiesWithin(c, k)
    ensures Within(c, k, Max(ListOverrun(positional), FieldsOverrun(named)), s, EvalArguments(c, s, positional, named).0)
    decreases LoopLeft(c, s), DepthLeft(c, s), 1, ValuesSize(positional) + FieldsSize(named), 1
  {
    hide BelowTopSame, Evaluation.Eval, Evaluation.EvalList, Hir.IsNormal, Within;
    var o, o' := ListOverrun(positional), FieldsOverrun(named);
    var (s1, ps) := EvalList(c, s, positional);
    WithinList(c, k, s, positional);
    WithinWeaken(c, k, o, Max(o, o'), s, s1);
    if ps.AllOk? {
      FieldValuesOverrun(named);
      WithinList(c, k, s1, FieldValues(named));
      WithinTrans(c, k, o, o', s, s1, EvalList(c, s1, FieldValues(named)).0);
    }
  }

  lemma {:induction false} WithinCall(c: Config, k: nat, s: State, callee: Value, positional: seq<Value>, named: seq<Field>)
    requires BodiesWithin(c, k)
    ensures Within(c, k, Overrun(Call(callee, positional, named)), s, EvalCall(c, s, callee, positional, named).0)
    decreases LoopLeft(c, s), DepthLeft(c, s), 1, 1 + Size(callee) + ValuesSize(positional) + FieldsSize(named), 0
  {
    hide BelowTopSame, Eval, CallWith, Hir.IsNormal, Within;
    var o1, o2 := Overrun(callee), Max(0, Max(ListOverrun(positional), FieldsOverrun(named)));
    assert Overrun(Call(callee, positional, named)) == Max(o1, o2);
    var (s1, f) := Eval(c, s, callee);
    WithinEval(c, k, s, callee);
    WithinWeaken(c, k, o1, Max(o1, o2), s, s1);
    if f.Ok? {
      WithinCallWith(c, k, s1, f.value, positional, named);
      WithinTrans(c, k, o1, o2, s, s1, CallWith(c, s1, f.value, positional, named).0);
    }
  }

  lemma {:induction false} WithinCallWith(c: Config, k: nat, s: State, f: Normal, positional: seq<Value>, named: seq<Field>)
    requires BodiesWithin(c, k)
    ensures Within(c, k, Max(0, Max(ListOverrun(positional), FieldsOverrun(named))), s, CallWith(c, s, f, positional, named).0)
    decreases LoopLeft(c, s), DepthLeft(c, s), 1, ValuesSize(positional) + FieldsSize(named), 2
  {
    hide BelowTopSame, Eval, EvalArguments, Apply, Hir.IsNormal, Within;
    var o := Max(ListOverrun(positional), FieldsOverrun(named));
    var (s1, args) := EvalArguments(c, s, positional, named);
    WithinArguments(c, k, s, positional, named);
    WithinApply(c, k, s1, f, args);
    WithinTrans(c, k, o, 0, s, s1, Apply(c, s1, f, args).0);
  }

  lemma {:induction false} WithinApply(c: Config, k: nat, s: State, f: Normal, args: ListResult)
    requires BodiesWithin(c, k)
    ensures Within(c, k, 0, s, Apply(c, s, f, args).0)
    decreases LoopLeft(c, s), DepthLeft(c, s), 0, 0, 1
  {
    hide BelowTopSame, EvalFunction, Hir.IsNormal;
    if args.AllOk? && f.FunctionSymbol? {
      WithinFunction(c, k, s, f.func, args.values);
    }
  }

  lemma {:induction false} WithinFunction(c: Config, k: nat, s: State, name: Name, args: seq<Normal>)
    requires BodiesWithin(c, k)
    ensures Within(c, k, 0, s, EvalFunction(c, s, name, args).0)
    decreases LoopLeft(c, s), DepthLeft(c, s), 0, 0, 0
  {
    hide BelowTopSame, Evaluation.Eval;
    var f := FunctionNamed(c, name);
    if s.callDepth < c.callDepthLimit && f.body.Some? {
      var inner := s.(callDepth := s.callDepth + 1, frames := s.frames + [Frame(map[], BindParams(f.params, args))]);
      WithinElements(c, k, inner, f.body.value, Unit);
      assert k * DepthLeft(c, s) == k * DepthLeft(c, inner) + k by {
        assert DepthLeft(c, s) == DepthLeft(c, inner) + 1;
      }
    }
  }

  /** A pass entered below the limit stays within it; one entered above adds a step. */
  lemma {:induction false} WithinIteration(c: Config, k: nat, s: State, body: Block)
    requires BodiesWithin(c, k)
    ensures Within(c, k, Max(0, BlockOverrun(body)), s.(loopCount := s.loopCount + 1), EvalIteration(c, s, body).0)
    decreases LoopLeft(c, s), DepthLeft(c, s), 1, BlockSize(body), 1
  {
    hide BelowTopSame, EvalBlock, BodiesWithin;
    WithinBlock(c, k, s.(loopCount := s.loopCount + 1), body);
  }

  lemma {:induction false} WithinWhile(c: Config, k: nat, s: State, condition: Value, body: Block)
    requires BodiesWithin(c, k)
    ensures Within(c, k, Overrun(While(condition, body)), s, EvalWhile(c, s, condition, body).0)
    decreases LoopLeft(c, s), DepthLeft(c, s), 1,
              if s.loopCount >= c.loopLimit then 0 else 1 + Size(condition) + BlockSize(body), 1
  {
    hide BelowTopSame, Eval, WhileWith, Hir.IsNormal, BodiesWithin;
    if s.loopCount < c.loopLimit {
      WithinEval(c, k, s, condition);
      var (s1, v) := Eval(c, s, condition);
      if v.Ok? {
        WithinWhileWith(c, k, s1, v.value, condition, body);
      }
    }
  }

  lemma {:induction false} WithinWhileWith(c: Config, k: nat, s: State, v: Normal, condition: Value, body: Block)
    requires BodiesWithin(c, k)
    ensures Within(c, k, Overrun(While(condition, body)), s.(loopCount := s.loopCount + 1), WhileWith(c, s, v, condition, body).0)
    decreases LoopLeft(c, s), DepthLeft(c, s), 1, 1 + BlockSize(body), 0
  {
    hide BelowTopSame, EvalWhile, EvalIteration, Hir.IsNormal, BodiesWithin;
    WithinIteration(c, k, s, body);
    WithinWhile(c, k, EvalIteration(c, s, body).0, condition, body);
  }

  lemma {:induction false} WithinLoop(c: Config, k: nat, s: State, body: Block)
    requires BodiesWithin(c, k)
    ensures Within(c, k, Overrun(Loop(body)), s, EvalLoop(c, s, body).0)
    decreases LoopLeft(c, s), DepthLeft(c, s), 1, 1 + BlockSize(body), 0
  {
    hide BelowTopSame, Eval, EvalIteration, Hir.IsNormal, BodiesWithin;
    if s.loopCount < c.loopLimit {
      WithinIteration(c, k, s, body);
      WithinLoop(c, k, EvalIteration(c, s, body).0, body);
    }
  }

  lemma {:induction false} WithinBlock(c: Config, k: nat, s: State, b: Block)
    requires BodiesWithin(c, k)
    ensures Within(c, k, BlockOverrun(b), s, EvalBlock(c, s, b).0)
    decreases LoopLeft(c, s), DepthLeft(c, s), 1, BlockSize(b), 0
  {
    hide BelowTopSame, Evaluation.Eval;
    WithinElements(c, k, s.(safety := b.safety), b.elements, Unit);
  }

  lemma {:induction false} WithinElements(c: Config, k: nat, s: State, es: seq<Element>, last: Normal)
    requires BodiesWithin(c, k)
    ensures Within(c, k, ElementsOverrun(es), s, EvalElements(c, s, es, last).0)
    decreases LoopLeft(c, s), DepthLeft(c, s), 1, ElementsSize(es), 0
  {
    hide BelowTopSame, Evaluation.Eval, Hir.IsNormal;
    if es != [] {
      WithinElement(c, k, s, es[0]);
      var (s1, v) := EvalElement(c, s, es[0]);
      if v.Ok? {
        WithinElements(c, k, s1, es[1..], v.value);
      }
    }
  }

  lemma {:induction false} WithinElement(c: Config, k: nat, s: State, e: Element)
    requires BodiesWithin(c, k)
    ensures Within(c, k, ElementOverrun(e), s, EvalElement(c, s, e).0)
    decreases LoopLeft(c, s), DepthLeft(c, s), 1, ElementSize(e), 0
  {
    hide BelowTopSame, Evaluation.Eval, Hir.IsNormal;
    match e
    case Expr(value) => WithinEval(c, k, s, value);
    case Local(_, None) =>
    case Local(_, Some(init)) => WithinEval(c, k, s, init);
  }

  /** Whenever a condition comes out true after using up the budget that was there when it began, the loop ends beyond
      the limit, whatever its body does. */
  lemma {:induction false} WhileOvershoots(c: Config, s: State, condition: Value, body: Block, t: State)
    requires s.loopCount < c.loopLimit
    requires Eval(c, s, condition) == (t, Ok(Bool(true))) && t.loopCount >= c.loopLimit
    ensures EvalWhile(c, s, condition, body).0.loopCount > c.loopLimit
  {
    hide Eval, EvalIteration, BelowTopSame;
    var (u, step) := EvalIteration(c, t, body);
    assert EvalWhile(c, s, condition, body) == WhileWith(c, t, Bool(true), condition, body);
    assert u.loopCount <= WhileWith(c, t, Bool(true), condition, body).0.loopCount;
  }

  /** When no while condition can loop or call, the counter never passes the limit. */
  lemma {:induction false} QuietConditionsKeepTheLimit(c: Config, s: State, e: Value)
    requires BodiesWithin(c, 0) && Overrun(e) <= 0
    requires s.loopCount <= c.loopLimit
    ensures Eval(c, s, e).0.loopCount <= c.loopLimit
  {
    hide BelowTopSame, Evaluation.Eval;
    WithinEval(c, 0, s, e);
  }

  // ---------------------------------------------------------------------------
  // The bound is attained
  // ---------------------------------------------------------------------------

  const BREAK_BLOCK: Block := Block(Safe, [Expr(Break(None))])

  /** A form with n while loops wrapped around it through their conditions. */
  function Nested(n: nat, core: Value): Value {
    if n == 0 then core
    else BlockExpr(Block(Safe, [Expr(While(Nested(n - 1, core), BREAK_BLOCK)), Expr(Bool(true))]))
  }

  /** `{ loop; true }` where the loop breaks at once: takes the last step of the budget. */
  const LAST_STEP: Value := BlockExpr(Block(Safe, [Expr(Loop(BREAK_BLOCK)), Expr(Bool(true))]))

  /** The last step of the budget with n while loops wrapped around it through their conditions. */
  function Overrunning(n: nat): Value {
    Nested(n, LAST_STEP)
  }

  lemma {:induction false} BreakBlockBreaks(c: Config, s: State)
    ensures EvalBlock(c, s, BREAK_BLOCK) == (s, Err(BreakOut(None)))
  {
    var inner := s.(safety := Safe);
    assert EvalElement(c, inner, BREAK_BLOCK.elements[0]) == (inner, Err(BreakOut(None)));
  }

  lemma {:induction false} ThenTrue(c: Config, s: State, e: Value, t: State)
    requires Eval(c, s.(safety := Safe), e) == (t, Ok(Unit)) && t.safety == Safe
    ensures Eval(c, s, BlockExpr(Block(Safe, [Expr(e), Expr(Bool(true))]))) == (t.(safety := s.safety), Ok(Bool(true)))
  {
    var els := [Expr(e), Expr(Bool(true))];
    var inner := s.(safety := Safe);
    var last := [Expr(Bool(true))];
    assert els[1..] == last && last[1..] == [];
    assert EvalElement(c, inner, els[0]) == (t, Ok(Unit));
    assert EvalElement(c, t, last[0]) == (t, Ok(Bool(true)));
    assert EvalElements(c, t, [], Bool(true)) == (t, Ok(Bool(true)));
    assert EvalElements(c, t, last, Unit) == (t, Ok(Bool(true)));
    assert EvalElements(c, inner, els, Unit) == (t, Ok(Bool(true)));
    assert EvalBlock(c, s, Block(Safe, els)) == (t.(safety := s.safety), Ok(Bool(true)));
  }

  lemma {:induction false} ThenTrueMeasure(e: Value)
    ensures Overrun(BlockExpr(Block(Safe, [Expr(e), Expr(Bool(true))]))) == Overrun(e)
    ensures BlockOverrun(BREAK_BLOCK) == -1
  {
    var els := [Expr(e), Expr(Bool(true))];
    var last := [Expr(Bool(true))];
    assert els[1..] == last && last[1..] == [];
    assert ElementsOverrun(last) == -1;
    assert ElementsOverrun(els) == Max(Overrun(e), ElementsOverrun(last));
    assert BREAK_BLOCK.elements[1..] == [];
  }

  lemma {:induction false} NestedMeasure(n: nat, core: Value)
    requires Overrun(core) >= 0
    ensures Overrun(Nested(n, core)) == Overrun(core) + n
  {
    if n > 0 {
      NestedMeasure(n - 1, core);
      ThenTrueMeasure(While(Nested(n - 1, core), BREAK_BLOCK));
    }
  }

  lemma {:induction false} OverrunningMeasure(n: nat)
    ensures Overrun(Overrunning(n)) == n
  {
    ThenTrueMeasure(Loop(BREAK_BLOCK));
    NestedMeasure(n, LAST_STEP);
  }

  lemma {:induction false} LoopBreaksAtLimit(c: Config, s: State)
    requires s.loopCount + 1 == c.loopLimit
    ensures Eval(c, s, Loop(BREAK_BLOCK)) == (s.(loopCount := c.loopLimit), Ok(Unit))
  {
    BreakBlockBreaks(c, s.(loopCount := c.loopLimit));
    hide EvalBlock;
    assert EvalLoop(c, s, BREAK_BLOCK) == (s.(loopCount := c.loopLimit), Ok(Unit));
  }

  lemma {:induction false} IterationBreaks(c: Config, s: State)
    ensures EvalIteration(c, s, BREAK_BLOCK) == (s.(loopCount := s.loopCount + 1), Stop(Ok(Unit)))
  {
    BreakBlockBreaks(c, s.(loopCount := s.loopCount + 1));
    hide EvalBlock;
  }

  lemma {:induction false} WhileBreaksAfter(c: Config, s: State, condition: Value, t: State)
    requires s.loopCount < c.loopLimit
    requires Eval(c, s, condition) == (t, Ok(Bool(true)))
    ensures EvalWhile(c, s, condition, BREAK_BLOCK) == (t.(loopCount := t.loopCount + 1), Ok(Unit))
  {
    IterationBreaks(c, t);
    hide EvalIteration, Eval;
  }

  /** Each condition wrapped around a form that ends true at m adds one step. */
  lemma {:induction false} NestedAddsSteps(c: Config, s: State, n: nat, core: Value, m: nat)
    requires s.loopCount < c.loopLimit
    requires Eval(c, s, core) == (s.(loopCount := m), Ok(Bool(true)))
    requires Eval(c, s.(safety := Safe), core) == (s.(safety := Safe, loopCount := m), Ok(Bool(true)))
    ensures Eval(c, s, Nested(n, core)) == (s.(loopCount := m + n), Ok(Bool(true)))
    decreases n
  {
    hide BelowTopSame, Evaluation.EvalBlock, Evaluation.EvalWhile, Evaluation.EvalElements;
    if n > 0 {
      var inner := s.(safety := Safe);
      var condition := Nested(n - 1, core);
      assert inner.(safety := Safe) == inner;
      NestedAddsSteps(c, inner, n - 1, core, m);
      var t := inner.(loopCount := m + n - 1);
      WhileBreaksAfter(c, inner, condition, t);
      ThenTrue(c, s, While(condition, BREAK_BLOCK), t.(loopCount := m + n));
    }
  }

  lemma {:induction false} LastStepRuns(c: Config, s: State)
    requires s.loopCount + 1 == c.loopLimit
    ensures Eval(c, s, LAST_STEP) == (s.(loopCount := c.loopLimit), Ok(Bool(true)))
  {
    hide BelowTopSame, Eval;
    var inner := s.(safety := Safe);
    LoopBreaksAtLimit(c, inner);
    ThenTrue(c, s, Loop(BREAK_BLOCK), inner.(loopCount := c.loopLimit));
  }

  /** From one step below the limit, n nested conditions end n steps above it. */
  lemma {:induction false} LimitIsPassed(c: Config, s: State, n: nat)
    requires s.loopCount + 1 == c.loopLimit
    ensures Eval(c, s, Overrunning(n)) == (s.(loopCount := c.loopLimit + n), Ok(Bool(true)))
  {
    hide BelowTopSame, Eval;
    LastStepRuns(c, s);
    LastStepRuns(c, s.(safety := Safe));
    NestedAddsSteps(c, s, n, LAST_STEP, c.loopLimit);
  }

  // ---------------------------------------------------------------------------
  // The bound is attained through calls
  // ---------------------------------------------------------------------------

  function ChainName(d: nat): Name {
    seq(d, i => 'f')
  }

  function ChainCall(d: nat): Value {
    Call(FunctionSymbol(ChainName(d)), [], [])
  }

  /** The d-th function wraps k conditions around a call of the one before it; the first one around the loop. */
  function ChainFunction(d: nat, k: nat): Function
    requires d >= 1
  {
    Function([], false, Some([Expr(Nested(k, if d == 1 then LAST_STEP else ChainCall(d - 1)))]))
  }

  function Chain(d: nat, k: nat): map<Name, Function> {
    if d == 0 then map[] else Chain(d - 1, k)[ChainName(d) := ChainFunction(d, k)]
  }

  lemma {:induction false} ChainHolds(d: nat, k: nat, i: nat)
    requires 1 <= i <= d
    ensures ChainName(i) in Chain(d, k) && Chain(d, k)[ChainName(i)] == ChainFunction(i, k)
  {
    if i < d {
      ChainHolds(d - 1, k, i);
      assert |ChainName(i)| == i && |ChainName(d)| == d;
    }
  }

  lemma {:induction false} ChainBodiesWithin(d: nat, k: nat, f: Name)
    requires f in Chain(d, k)
    ensures Chain(d, k)[f].body.Some? && ElementsOverrun(Chain(d, k)[f].body.value) <= k
  {
    if f == ChainName(d) && d > 0 {
      var core := if d == 1 then LAST_STEP else ChainCall(d - 1);
      ThenTrueMeasure(Loop(BREAK_BLOCK));
      CallOverrun(d - 1);
      NestedMeasure(k, core);
      var body := ChainFunction(d, k).body.value;
      assert body[1..] == [];
    } else {
      ChainBodiesWithin(d - 1, k, f);
    }
  }

  /** A call of a function whose body is one expression ends as that expression does inside the call. */
  lemma {:induction false} CallRuns(c: Config, s: State, f: Name, e: Value, m: nat)
    requires f in c.functions && c.functions[f] == Function([], false, Some([Expr(e)]))
    requires s.callDepth < c.callDepthLimit
    requires var inner := s.(callDepth := s.callDepth + 1, frames := s.frames + [Frame(map[], map[])]);
      Eval(c, inner, e) == (inner.(loopCount := m), Ok(Bool(true)))
    ensures Eval(c, s, Call(FunctionSymbol(f), [], [])) == (s.(loopCount := m), Ok(Bool(true)))
  {
    FunctionRuns(c, s, f, e, m);
    hide EvalFunction;
    NoArguments(c, s);
    assert CallWith(c, s, FunctionSymbol(f), [], []) == EvalFunction(c, s, f, []);
    assert EvalCall(c, s, FunctionSymbol(f), [], []) == EvalFunction(c, s, f, []);
    assert EvalControl(c, s, Call(FunctionSymbol(f), [], [])) == EvalFunction(c, s, f, []);
  }

  lemma {:induction false} NoArguments(c: Config, s: State)
    ensures EvalArguments(c, s, [], []) == (s, AllOk([]))
  {
    assert EvalList(c, s, []) == (s, AllOk([]));
    assert FieldValues([]) == [];
    var none: seq<Normal> := [];
    assert none + none == none;
  }

  lemma {:induction false} FunctionRuns(c: Config, s: State, f: Name, e: Value, m: nat)
    requires f in c.functions && c.functions[f] == Function([], false, Some([Expr(e)]))
    requires s.callDepth < c.callDepthLimit
    requires var inner := s.(callDepth := s.callDepth + 1, frames := s.frames + [Frame(map[], map[])]);
      Eval(c, inner, e) == (inner.(loopCount := m), Ok(Bool(true)))
    ensures EvalFunction(c, s, f, []) == (s.(loopCount := m), Ok(Bool(true)))
  {
    hide Eval, BelowTopSame;
    var inner := s.(callDepth := s.callDepth + 1, frames := s.frames + [Frame(map[], map[])]);
    var t := inner.(loopCount := m);
    assert BindParams([], []) == map[];
    var body := [Expr(e)];
    assert body[1..] == [];
    assert EvalElement(c, inner, body[0]) == (t, Ok(Bool(true)));
    assert EvalElements(c, t, [], Bool(true)) == (t, Ok(Bool(true)));
    assert EvalElements(c, inner, body, Unit) == (t, Ok(Bool(true)));
    assert t.frames[..|s.frames|] == s.frames;
  }

  lemma {:induction false} ChainRuns(c: Config, s: State, d: nat, k: nat, length: nat)
    requires 1 <= d <= length && c.functions == Chain(length, k)
    requires s.loopCount + 1 == c.loopLimit && s.callDepth + d <= c.callDepthLimit
    ensures Eval(c, s, ChainCall(d)) == (s.(loopCount := c.loopLimit + k * d), Ok(Bool(true)))
    decreases d
  {
    hide Eval, BelowTopSame, Chain, Nested;
    var inner := s.(callDepth := s.callDepth + 1, frames := s.frames + [Frame(map[], map[])]);
    var core := if d == 1 then LAST_STEP else ChainCall(d - 1);
    var m := c.loopLimit + k * (d - 1);
    if d == 1 {
      LastStepRuns(c, inner);
      LastStepRuns(c, inner.(safety := Safe));
    } else {
      ChainRuns(c, inner, d - 1, k, length);
      ChainRuns(c, inner.(safety := Safe), d - 1, k, length);
    }
    NestedAddsSteps(c, inner, k, core, m);
    ChainHolds(length, k, d);
    assert k * d == k * (d - 1) + k;
    CallRuns(c, s, ChainName(d), Nested(k, core), m + k);
  }

  /** The whole bound is reached: with d call levels left, functions that overrun by k, and a form that overruns by o,
      the counter ends at the limit plus o plus k for every level. */
  lemma {:induction false} CallBoundIsReached(c: Config, s: State, o: nat, k: nat, d: nat)
    requires d >= 1 && c.functions == Chain(d, k) && DepthLeft(c, s) == d
    requires s.loopCount + 1 == c.loopLimit
    ensures BodiesWithin(c, k) && Overrun(Nested(o, ChainCall(d))) == o
    ensures Eval(c, s, Nested(o, ChainCall(d))) == (s.(loopCount := c.loopLimit + o + k * d), Ok(Bool(true)))
  {
    hide Eval, BelowTopSame, Chain, Nested, Overrun, ElementsOverrun;
    forall f | f in c.functions && c.functions[f].body.Some? ensures ElementsOverrun(c.functions[f].body.value) <= k {
      ChainBodiesWithin(d, k, f);
    }
    CallOverrun(d);
    NestedMeasure(o, ChainCall(d));
    ChainRuns(c, s, d, k, d);
    ChainRuns(c, s.(safety := Safe), d, k, d);
    NestedAddsSteps(c, s, o, ChainCall(d), c.loopLimit + k * d);
  }

  lemma {:induction false} CallOverrun(d: nat)
    ensures Overrun(ChainCall(d)) == 0
  {
  }
}
