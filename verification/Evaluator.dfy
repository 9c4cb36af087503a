/** The tree-walking interpreter with its mutable frame stack and counters.

    Every method is proved to leave the state and return the result that the functions in Evaluation.dfy give
    for the state it was called in. */
module Evaluator {
  import opened Wrappers
  import L = Literals
  import opened Hir
  import opened Evaluation
  import opened ReturnInsertion

  class Evaluator {
    const config: Config
    var frames: seq<Frame>
    var loopCount: nat
    var callDepth: nat
    var currentSafety: Safety

    /** The fields together, as the specification sees them. */
    function Snapshot(): State
      reads this
    {
      State(frames, loopCount, callDepth, currentSafety)
    }

    constructor (config: Config)
      ensures this.config == config
      ensures Snapshot() == State([], 0, 0, Safe)
    {
      this.config := config;
      frames, loopCount, callDepth, currentSafety := [], 0, 0, Safe;
    }

    method Evaluate(e: Value) returns (r: Result)
      modifies this
      ensures (Snapshot(), r) == Eval(config, old(Snapshot()), e)
      decreases LoopLeft(config, Snapshot()), DepthLeft(config, Snapshot()), if IsNormal(e) then 0 else 1, Size(e), 2
    {
      if IsOperation(e) {
        r := EvaluateOperation(e);
      } else if IsControl(e) {
        r := EvaluateControl(e);
      } else if IsAggregate(e) {
        r := EvaluateAggregate(e);
      } else if e.LocalVariableSymbol? || e.ParameterSymbol? {
        var b := LookUp(e.name);
        r := if b.Some? then Ok(b.value) else Err(TypeError);
      } else {
        r := EvalLeaf(Snapshot(), e);
      }
    }

    method EvaluateOperation(e: Value) returns (r: Result)
      requires IsOperation(e)
      modifies this
      ensures (Snapshot(), r) == EvalOperation(config, old(Snapshot()), e)
      decreases LoopLeft(config, Snapshot()), DepthLeft(config, Snapshot()), 1, Size(e), 1
    {
      hide Eval, BelowTopSame;
      match e
      case Binary(left, op, right) => r := EvaluateBinary(left, op, right);
      case Unary(op, operand) =>
        r := Evaluate(operand);
        if r.Ok? {
          r := UnaryResult(op, r.value);
        }
      case Cast(expr, target) =>
        r := Evaluate(expr);
        if r.Ok? {
          r := CastResult(config, r.value, target);
        }
      case FieldAccess(expr, x) => r := EvaluateFieldAccess(expr, x);
      case IndexAccess(collection, index) => r := EvaluateIndexAccess(collection, index);
      case Assign(place, rhs) =>
        r := Evaluate(rhs);
        if r.Ok? {
          r := AssignTo(place, r.value);
        }
    }

    method EvaluateControl(e: Value) returns (r: Result)
      requires IsControl(e)
      modifies this
      ensures (Snapshot(), r) == EvalControl(config, old(Snapshot()), e)
      decreases LoopLeft(config, Snapshot()), DepthLeft(config, Snapshot()), 1, Size(e), 1
    {
      hide Eval, BelowTopSame;
      match e
      case If(condition, thenBlock, elseBlock) => r := EvaluateIf(condition, thenBlock, elseBlock);
      case While(condition, body) => r := EvaluateWhile(condition, body);
      case Loop(body) => r := EvaluateLoop(body);
      case Return(expr) =>
        r := Evaluate(expr);
        if r.Ok? {
          r := Err(Returned(r.value));
        }
      case BlockExpr(block) => r := EvaluateBlock(block);
      case Call(callee, positional, named) => r := EvaluateCall(callee, positional, named);
    }

    method EvaluateAggregate(e: Value) returns (r: Result)
      requires IsAggregate(e)
      modifies this
      ensures (Snapshot(), r) == EvalAggregate(config, old(Snapshot()), e)
      decreases LoopLeft(config, Snapshot()), DepthLeft(config, Snapshot()), if IsNormal(e) then 0 else 1, Size(e), 0
    {
      hide Eval, BelowTopSame;
      var vs := EvaluateList(Components(e));
      if vs.ListErr? {
        r := Err(vs.error);
      } else {
        r := Ok(Rebuild(e, vs.values));
      }
    }

    /** Pushes one value after the other until an error stops it. */
    method EvaluateList(es: seq<Value>) returns (r: ListResult)
      modifies this
      ensures (Snapshot(), r) == EvalList(config, old(Snapshot()), es)
      decreases LoopLeft(config, Snapshot()), DepthLeft(config, Snapshot()), if AllNormal(es) then 0 else 1, ValuesSize(es), 0
    {
      hide Eval, EvalList, BelowTopSame, IsNormal;
      var values: seq<Normal> := [];
      var i := 0;
      DisciplinedRefl(Snapshot());
      assert es[0..] == es;
      PrependNothing(EvalList(config, Snapshot(), es));
      while i < |es|
        invariant i <= |es| && |values| == i
        invariant Disciplined(old(Snapshot()), Snapshot())
        invariant EvalList(config, old(Snapshot()), es) == Prepend(values, EvalList(config, Snapshot(), es[i..]))
      {
        ValuesSizeDrop(es, i);
        assert es[i..][1..] == es[i + 1..];
        ghost var before := Snapshot();
        EvalListUnfold(config, before, es[i..]);
        var v := Evaluate(es[i]);
        DisciplinedTrans(old(Snapshot()), before, Snapshot());
        if v.Err? {
          return ListErr(v.error);
        }
        PrependPrepend(values, v.value, EvalList(config, Snapshot(), es[i + 1..]));
        values := values + [v.value];
        i := i + 1;
      }
      assert es[i..] == [] && values + [] == values;
      EvalListEmpty(config, Snapshot());
      r := AllOk(values);
    }

    method EvaluateBinary(left: Value, op: L.BinaryOp, right: Value) returns (r: Result)
      modifies this
      ensures (Snapshot(), r) == EvalBinary(config, old(Snapshot()), left, op, right)
      decreases LoopLeft(config, Snapshot()), DepthLeft(config, Snapshot()), 1, 1 + Size(left) + Size(right), 0
    {
      hide Eval, EvalBinary, BelowTopSame, IsNormal, BinaryResult;
      var l := Evaluate(left);
      BinaryAfterLeft(config, old(Snapshot()), left, op, right);
      if l.Err? {
        return l;
      }
      if op.LogicAnd? || op.LogicOr? {
        if !l.value.Bool? {
          return Err(TypeError);
        }
        if l.value.b != op.LogicAnd? {
          return Ok(Bool(op.LogicOr?));
        }
        r := Evaluate(right);
      } else {
        r := Evaluate(right);
        if r.Ok? {
          r := BinaryResult(op, l.value, r.value);
        }
      }
    }

    method EvaluateIf(condition: Value, thenBlock: Block, elseBlock: Option<Block>) returns (r: Result)
      modifies this
      ensures (Snapshot(), r) == EvalIf(config, old(Snapshot()), condition, thenBlock, elseBlock)
      decreases LoopLeft(config, Snapshot()), DepthLeft(config, Snapshot()), 1,
                1 + Size(condition) + BlockSize(thenBlock) + (if elseBlock.Some? then BlockSize(elseBlock.value) else 0), 0
    {
      hide Eval, BelowTopSame;
      var v := Evaluate(condition);
      if v.Err? {
        r := v;
      } else if !v.value.Bool? {
        r := Err(TypeError);
      } else if v.value.b {
        r := EvaluateBlock(thenBlock);
      } else if elseBlock.Some? {
        r := EvaluateBlock(elseBlock.value);
      } else {
        r := Ok(Unit);
      }
    }

    method EvaluateFieldAccess(expr: Value, x: Name) returns (r: Result)
      modifies this
      ensures (Snapshot(), r) == EvalFieldAccess(config, old(Snapshot()), expr, x)
      decreases LoopLeft(config, Snapshot()), DepthLeft(config, Snapshot()), 1, 1 + Size(expr), 0
    {
      hide Eval, BelowTopSame;
      r := Evaluate(expr);
      if r.Ok? {
        r := FieldOf(r.value, x);
        if r.Ok? {
          r := Evaluate(r.value);
        }
      }
    }

    method EvaluateIndexAccess(collection: Value, index: Value) returns (r: Result)
      modifies this
      ensures (Snapshot(), r) == EvalIndexAccess(config, old(Snapshot()), collection, index)
      decreases LoopLeft(config, Snapshot()), DepthLeft(config, Snapshot()), 1, 1 + Size(collection) + Size(index), 0
    {
      hide Eval, EvalIndexAccess, BelowTopSame, IsNormal, ElementAt;
      var v := Evaluate(collection);
      IndexAfterCollection(config, old(Snapshot()), collection, index);
      if v.Err? {
        return v;
      }
      var i := Evaluate(index);
      if i.Err? {
        return i;
      }
      r := ElementAt(v.value, i.value);
      if r.Ok? {
        r := Evaluate(r.value);
      }
    }

    /** Binds a local of the top frame; nothing else can be assigned. */
    method AssignTo(place: Value, v: Normal) returns (r: Result)
      modifies `frames
      ensures (Snapshot(), r) == AssignResult(old(Snapshot()), place, v)
    {
      if !place.LocalVariableSymbol? {
        r := Err(Unsupported("assignment to non-local"));
      } else if frames == [] {
        r := Err(TypeError);
      } else {
        BindInTopFrame(place.name, v);
        r := Ok(Unit);
      }
    }

    method BindInTopFrame(x: Name, v: Normal)
      modifies `frames
      ensures Snapshot() == BindTop(old(Snapshot()), x, v)
    {
      if frames != [] {
        var n := |frames| - 1;
        frames := frames[..n] + [SetBinding(frames[n], x, v)];
      }
    }

    method EvaluateCall(callee: Value, positional: seq<Value>, named: seq<Field>) returns (r: Result)
      modifies this
      ensures (Snapshot(), r) == EvalCall(config, old(Snapshot()), callee, positional, named)
      decreases LoopLeft(config, Snapshot()), DepthLeft(config, Snapshot()), 1,
                1 + Size(callee) + ValuesSize(positional) + FieldsSize(named), 0
    {
      hide Eval, CallWith, BelowTopSame, IsNormal;
      var f := Evaluate(callee);
      if f.Err? {
        return f;
      }
      r := ApplyToArguments(f.value, positional, named);
    }

    /** Arguments are evaluated before the callee is known to be a function. */
    method ApplyToArguments(f: Normal, positional: seq<Value>, named: seq<Field>) returns (r: Result)
      modifies this
      ensures (Snapshot(), r) == CallWith(config, old(Snapshot()), f, positional, named)
      decreases LoopLeft(config, Snapshot()), DepthLeft(config, Snapshot()), 1, ValuesSize(positional) + FieldsSize(named), 2
    {
      hide Eval, EvalList, EvalFunction, BelowTopSame, IsNormal;
      var ps := EvaluateList(positional);
      if ps.ListErr? {
        return Err(ps.error);
      }
      var ns := EvaluateList(FieldValues(named));
      if ns.ListErr? {
        return Err(ns.error);
      }
      if f.FunctionSymbol? {
        r := EvaluateFunction(f.func, ps.values + ns.values);
      } else {
        r := Err(TypeError);
      }
    }

    method EvaluateWhile(condition: Value, body: Block) returns (r: Result)
      modifies this
      ensures (Snapshot(), r) == EvalWhile(config, old(Snapshot()), condition, body)
      decreases LoopLeft(config, Snapshot()), DepthLeft(config, Snapshot()), 1,
                if loopCount >= config.loopLimit then 0 else 1 + Size(condition) + BlockSize(body), 1
    {
      hide Eval, EvalWhile, EvalBlock, BelowTopSame, IsNormal;
      DisciplinedRefl(Snapshot());
      while true
        invariant Disciplined(old(Snapshot()), Snapshot())
        invariant EvalWhile(config, old(Snapshot()), condition, body) == EvalWhile(config, Snapshot(), condition, body)
        decreases LoopLeft(config, Snapshot())
      {
        ghost var before := Snapshot();
        WhileUnfold(config, before, condition, body);
        if loopCount >= config.loopLimit {
          return Err(LoopLimitExceeded);
        }
        var v := Evaluate(condition);
        if v.Err? {
          return v;
        }
        if !v.value.Bool? {
          return Err(TypeError);
        }
        if !v.value.b {
          break;
        }
        DisciplinedTrans(old(Snapshot()), before, Snapshot());
        ghost var tested := Snapshot();
        loopCount := loopCount + 1;
        var step := EvaluateBlock(body);
        IterationIs(config, tested, body, Snapshot(), step);
        DisciplinedTrans(old(Snapshot()), tested, Snapshot());
        if step.Ok? || step.error.ContinueOut? {
          continue;
        }
        if step.error.BreakOut? {
          break;
        }
        return step;
      }
      r := Ok(Unit);
    }

    method EvaluateLoop(body: Block) returns (r: Result)
      modifies this
      ensures (Snapshot(), r) == EvalLoop(config, old(Snapshot()), body)
      decreases LoopLeft(config, Snapshot()), DepthLeft(config, Snapshot()), 1, 1 + BlockSize(body), 0
    {
      hide Eval, EvalLoop, EvalBlock, BelowTopSame;
      DisciplinedRefl(Snapshot());
      while true
        invariant Disciplined(old(Snapshot()), Snapshot())
        invariant EvalLoop(config, old(Snapshot()), body) == EvalLoop(config, Snapshot(), body)
        decreases LoopLeft(config, Snapshot())
      {
        ghost var before := Snapshot();
        LoopUnfold(config, before, body);
        if loopCount >= config.loopLimit {
          return Err(LoopLimitExceeded);
        }
        loopCount := loopCount + 1;
        var step := EvaluateBlock(body);
        IterationIs(config, before, body, Snapshot(), step);
        DisciplinedTrans(old(Snapshot()), before, Snapshot());
        if step.Ok? || step.error.ContinueOut? {
          continue;
        }
        if step.error.BreakOut? {
          break;
        }
        return step;
      }
      r := Ok(Unit);
    }

    method EvaluateBlock(b: Block) returns (r: Result)
      modifies this
      ensures (Snapshot(), r) == EvalBlock(config, old(Snapshot()), b)
      decreases LoopLeft(config, Snapshot()), DepthLeft(config, Snapshot()), 1, BlockSize(b), 0
    {
      hide Eval, EvalElement, EvalElements, BelowTopSame;
      var beforeSafety := currentSafety;
      currentSafety := b.safety;
      ghost var entered := Snapshot();
      var last: Normal := Unit;
      var i := 0;
      DisciplinedRefl(entered);
      assert b.elements[0..] == b.elements;
      while i < |b.elements|
        invariant i <= |b.elements|
        invariant Disciplined(entered, Snapshot())
        invariant EvalElements(config, entered, b.elements, Unit) == EvalElements(config, Snapshot(), b.elements[i..], last)
      {
        ElementsSizeDrop(b.elements, i);
        assert b.elements[i..][1..] == b.elements[i + 1..];
        ghost var before := Snapshot();
        EvalElementsStep(config, before, b.elements[i..], last);
        var v := EvaluateElement(b.elements[i]);
        if v.Err? {
          currentSafety := beforeSafety;
          return v;
        }
        DisciplinedTrans(entered, before, Snapshot());
        last := v.value;
        i := i + 1;
      }
      assert b.elements[i..] == [];
      NoElements(config, Snapshot(), last);
      currentSafety := beforeSafety;
      r := Ok(last);
    }

    method EvaluateElement(e: Element) returns (r: Result)
      modifies this
      ensures (Snapshot(), r) == EvalElement(config, old(Snapshot()), e)
      decreases LoopLeft(config, Snapshot()), DepthLeft(config, Snapshot()), 1, ElementSize(e), 0
    {
      hide Eval, BelowTopSame;
      match e
      case Expr(value) => r := Evaluate(value);
      case Local(x, initializer) =>
        var init: Result := Ok(Unit);
        if initializer.Some? {
          init := Evaluate(initializer.value);
          if init.Err? {
            return init;
          }
        }
        BindInTopFrame(x, init.value);
        r := Ok(Unit);
    }

    /** Pushes a frame, runs the body, and pops the frame on every way out. */
    method EvaluateFunction(name: Name, args: seq<Normal>) returns (r: Result)
      modifies this
      ensures (Snapshot(), r) == EvalFunction(config, old(Snapshot()), name, args)
      decreases LoopLeft(config, Snapshot()), DepthLeft(config, Snapshot()), 0, 0, 0
    {
      hide Eval, EvalElements, IsNormal;
      if callDepth >= config.callDepthLimit {
        return Err(CallDepthExceeded);
      }
      callDepth := callDepth + 1;
      var f := FunctionNamed(config, name);
      frames := frames + [Frame(map[], BindParams(f.params, args))];
      var beforeSafety := currentSafety;
      if f.isUnsafe && currentSafety.Safe? {
        PopFrame();
        callDepth := callDepth - 1;
        return Err(UnsafeInSafeContext);
      }
      if f.body.Some? {
        r := RunBody(f.body.value);
      } else {
        r := Err(Unsupported("extern function call"));
      }
      PopFrame();
      currentSafety := beforeSafety;
      callDepth := callDepth - 1;
    }

    /** The elements of a body up to its end, its first `return`, or its first other error. */
    method RunBody(body: seq<Element>) returns (r: Result)
      modifies this
      ensures Disciplined(old(Snapshot()), Snapshot())
      ensures var (t, run) := EvalElements(config, old(Snapshot()), body, Unit); Snapshot() == t && r == CatchReturn(run)
      decreases LoopLeft(config, Snapshot()), DepthLeft(config, Snapshot()), 1, ElementsSize(body), 1
    {
      hide Eval, EvalElement, EvalElements, BelowTopSame;
      var last: Normal := Unit;
      var i := 0;
      assert body[0..] == body;
      DisciplinedRefl(Snapshot());
      while i < |body|
        invariant i <= |body|
        invariant Disciplined(old(Snapshot()), Snapshot())
        invariant EvalElements(config, old(Snapshot()), body, Unit) == EvalElements(config, Snapshot(), body[i..], last)
      {
        ElementsSizeDrop(body, i);
        assert body[i..][1..] == body[i + 1..];
        ghost var before := Snapshot();
        EvalElementsStep(config, before, body[i..], last);
        var v := EvaluateElement(body[i]);
        DisciplinedTrans(old(Snapshot()), before, Snapshot());
        if v.Err? {
          return if v.error.Returned? then Ok(v.error.value) else v;
        }
        last := v.value;
        i := i + 1;
      }
      assert body[i..] == [];
      NoElements(config, Snapshot(), last);
      r := Ok(last);
    }

    method PopFrame()
      requires frames != []
      modifies `frames
      ensures frames == old(frames)[..|old(frames)| - 1]
    {
      frames := frames[..|frames| - 1];
    }

    /** The innermost binding of a name: frames from the top down, locals before parameters. */
    method LookUp(x: Name) returns (b: Option<Normal>)
      ensures b == LookupBinding(frames, x)
    {
      var i: nat := |frames|;
      assert frames[..i] == frames;
      while i > 0
        invariant 0 <= i <= |frames|
        invariant LookupBinding(frames, x) == LookupBinding(frames[..i], x)
      {
        b := GetBinding(frames[i - 1], x);
        assert frames[..i][..i - 1] == frames[..i - 1];
        if b.Some? {
          return;
        }
        i := i - 1;
      }
      b := None;
    }
  }

  lemma {:induction false} DisciplinedRefl(s: State)
    ensures Disciplined(s, s)
  {
  }

  lemma {:induction false} DisciplinedTrans(s: State, t: State, u: State)
    requires Disciplined(s, t) && Disciplined(t, u)
    ensures Disciplined(s, u)
  {
  }

  /** A list result with values already computed in front. */
  function Prepend(values: seq<Normal>, r: (State, ListResult)): (State, ListResult) {
    if r.1.AllOk? then (r.0, AllOk(values + r.1.values)) else r
  }

  lemma {:induction false} BinaryAfterLeft(c: Config, s: State, left: Value, op: L.BinaryOp, right: Value)
    ensures var (s1, l) := Eval(c, s, left);
      EvalBinary(c, s, left, op, right) ==
      if l.Err? then (s1, l)
      else if op.LogicAnd? || op.LogicOr? then
        if !l.value.Bool? then (s1, Err(TypeError))
        else if l.value.b == op.LogicAnd? then Eval(c, s1, right) else (s1, Ok(Bool(op.LogicOr?)))
      else
        var (s2, r) := Eval(c, s1, right);
        if r.Err? then (s2, r) else (s2, BinaryResult(op, l.value, r.value))
  {
    hide Eval, BinaryResult;
  }

  lemma {:induction false} IndexAfterCollection(c: Config, s: State, collection: Value, index: Value)
    ensures var (s1, v) := Eval(c, s, collection);
      EvalIndexAccess(c, s, collection, index) ==
      if v.Err? then (s1, v)
      else
        var (s2, i) := Eval(c, s1, index);
        if i.Err? then (s2, i)
        else
          var element := ElementAt(v.value, i.value);
          if element.Err? then (s2, element) else Eval(c, s2, element.value)
  {
    hide Eval, ElementAt;
  }

  lemma {:induction false} WhileUnfold(c: Config, s: State, condition: Value, body: Block)
    ensures EvalWhile(c, s, condition, body) ==
      if s.loopCount >= c.loopLimit then (s, Err(LoopLimitExceeded))
      else
        var (s1, v) := Eval(c, s, condition);
        if v.Err? then (s1, v)
        else if !v.value.Bool? then (s1, Err(TypeError))
        else if !v.value.b then (s1, Ok(Unit))
        else
          var (s2, step) := EvalIteration(c, s1, body);
          if step.GoOn? then EvalWhile(c, s2, condition, body) else (s2, step.result)
  {
    hide Eval, EvalIteration;
  }

  lemma {:induction false} LoopUnfold(c: Config, s: State, body: Block)
    ensures EvalLoop(c, s, body) ==
      if s.loopCount >= c.loopLimit then (s, Err(LoopLimitExceeded))
      else
        var (s1, step) := EvalIteration(c, s, body);
        if step.GoOn? then EvalLoop(c, s1, body) else (s1, step.result)
  {
    hide EvalIteration;
  }

  lemma {:induction false} IterationIs(c: Config, s: State, body: Block, t: State, r: Result)
    requires (t, r) == EvalBlock(c, s.(loopCount := s.loopCount + 1), body)
    ensures EvalIteration(c, s, body) ==
      (t, if r.Ok? || r.error.ContinueOut? then GoOn else Stop(if r.error.BreakOut? then Ok(Unit) else r))
    ensures Disciplined(s, t) && s.loopCount < t.loopCount
  {
    hide EvalBlock;
  }

  lemma {:induction false} NoElements(c: Config, s: State, last: Normal)
    ensures EvalElements(c, s, [], last) == (s, Ok(last))
  {
  }

  lemma {:induction false} PrependNothing(r: (State, ListResult))
    ensures Prepend([], r) == r
  {
    if r.1.AllOk? {
      assert [] + r.1.values == r.1.values;
    }
  }

  lemma {:induction false} PrependPrepend(values: seq<Normal>, v: Normal, r: (State, ListResult))
    ensures Prepend(values, Prepend([v], r)) == Prepend(values + [v], r)
  {
    if r.1.AllOk? {
      assert values + ([v] + r.1.values) == values + [v] + r.1.values;
    }
  }

  lemma {:induction false} EvalListEmpty(c: Config, s: State)
    ensures EvalList(c, s, []) == (s, AllOk([]))
  {
  }

  lemma {:induction false} EvalListUnfold(c: Config, s: State, es: seq<Value>)
    requires es != []
    ensures EvalList(c, s, es) ==
            var (s1, v) := Eval(c, s, es[0]);
            if v.Err? then (s1, ListErr(v.error)) else Prepend([v.value], EvalList(c, s1, es[1..]))
  {
    hide Eval;
  }

  lemma {:induction false} ValuesSizeDrop(es: seq<Value>, i: nat)
    requires i < |es|
    ensures Size(es[i]) < ValuesSize(es)
    ensures AllNormal(es) ==> IsNormal(es[i])
  {
    if i > 0 {
      ValuesSizeDrop(es[1..], i - 1);
    }
  }

  lemma {:induction false} ElementsSizeDrop(es: seq<Element>, i: nat)
    requires i < |es|
    ensures ElementSize(es[i]) < ElementsSize(es)
  {
    if i > 0 {
      ElementsSizeDrop(es[1..], i - 1);
    }
  }
}
