/** Equations of the evaluated language, for every expression, state and outcome: which binding a name reads, which
    argument a parameter gets, in what order parts run, and which programs do the same. */
module EvaluationLaws {
  import opened Wrappers
  import opened FixedWidth
  import L = Literals
  import opened Hir
  import opened Evaluation
  import opened NormalForms
  import opened ReturnInsertion

  // ---------------------------------------------------------------------------
  // Bindings
  // ---------------------------------------------------------------------------

  predicate Binds(f: Frame, x: Name) {
    x in f.locals || x in f.params
  }

  /** The innermost frame that binds a name decides, and in it a local before a parameter. */
  lemma {:induction false} InnermostBindingWins(frames: seq<Frame>, x: Name, k: nat)
    requires k < |frames| && Binds(frames[k], x)
    requires forall j | k < j < |frames| :: !Binds(frames[j], x)
    ensures LookupBinding(frames, x) ==
            Some(if x in frames[k].locals then frames[k].locals[x] else frames[k].params[x])
    decreases |frames|
  {
    if k < |frames| - 1 {
      InnermostBindingWins(frames[..|frames| - 1], x, k);
    }
  }

  lemma {:induction false} UnboundName(frames: seq<Frame>, x: Name)
    ensures LookupBinding(frames, x).None? <==> forall k | 0 <= k < |frames| :: !Binds(frames[k], x)
    decreases |frames|
  {
    if frames != [] {
      var n := |frames| - 1;
      UnboundName(frames[..n], x);
      assert forall k | 0 <= k < n :: frames[..n][k] == frames[k];
    }
  }

  /** After a name is bound in the top frame it reads the bound value, and every other name reads what it read before. */
  lemma {:induction false} BindThenLookup(s: State, x: Name, v: Normal, y: Name)
    requires s.frames != []
    ensures LookupResult(BindTop(s, x, v), y) == if y == x then Ok(v) else LookupResult(s, y)
  {
  }

  /** A parameter is bound to the argument at its position, and to unit when there is none; of parameters with one name
      the last counts. */
  lemma {:induction false} ParameterGetsArgument(params: seq<Name>, args: seq<Normal>, i: nat)
    requires i < |params| && forall j | i < j < |params| :: params[j] != params[i]
    ensures params[i] in BindParams(params, args)
    ensures BindParams(params, args)[params[i]] == if i < |args| then args[i] else Unit
    decreases |params|
  {
    if i < |params| - 1 {
      ParameterGetsArgument(params[..|params| - 1], args, i);
    }
  }

  lemma {:induction false} OnlyParametersBound(params: seq<Name>, args: seq<Normal>, x: Name)
    ensures x in BindParams(params, args) <==> x in params
    decreases |params|
  {
    if params != [] {
      var n := |params| - 1;
      OnlyParametersBound(params[..n], args, x);
      assert params == params[..n] + [params[n]];
    }
  }

  /** A call that is neither too deep nor unsafe in a safe context. */
  predicate CallAdmitted(c: Config, s: State, name: Name) {
    s.callDepth < c.callDepthLimit && !(FunctionNamed(c, name).isUnsafe && s.safety.Safe?)
  }

  /** A function that reads its i-th parameter returns its i-th argument, whatever the frames of its callers bind. */
  lemma {:induction false} CallReadsArgument(c: Config, s: State, name: Name, args: seq<Normal>, i: nat)
    requires CallAdmitted(c, s, name)
    requires var ps := FunctionNamed(c, name).params; i < |ps| && forall j | i < j < |ps| :: ps[j] != ps[i]
    requires FunctionNamed(c, name).body == Some([Expr(ParameterSymbol(FunctionNamed(c, name).params[i]))])
    ensures EvalFunction(c, s, name, args) == (s, Ok(if i < |args| then args[i] else Unit))
  {
    hide Evaluation.Eval, Evaluation.EvalElements, Evaluation.LookupBinding, Evaluation.BindParams;
    var f := FunctionNamed(c, name);
    var frame := Frame(map[], BindParams(f.params, args));
    var inner := s.(callDepth := s.callDepth + 1, frames := s.frames + [frame]);
    ParameterGetsArgument(f.params, args, i);
    InnermostBindingWins(inner.frames, f.params[i], |s.frames|);
    LookupEvaluates(c, inner, f.params[i]);
    SingleElement(c, inner, f.body.value[0], Unit);
    assert inner.frames[..|s.frames|] == s.frames;
  }

  lemma {:induction false} LookupEvaluates(c: Config, s: State, x: Name)
    ensures Eval(c, s, ParameterSymbol(x)) == (s, LookupResult(s, x))
    ensures Eval(c, s, LocalVariableSymbol(x)) == (s, LookupResult(s, x))
  {
  }

  // ---------------------------------------------------------------------------
  // Order
  // ---------------------------------------------------------------------------

  function PrependValues(vs: seq<Normal>, r: ListResult): ListResult {
    if r.ListErr? then r else AllOk(vs + r.values)
  }

  /** A list runs in order: first its front, then, from the state reached and unless the front failed, the rest. */
  lemma {:induction false} ListRunsInOrder(c: Config, s: State, front: seq<Value>, rest: seq<Value>)
    ensures
      var (s1, vs) := EvalList(c, s, front);
      EvalList(c, s, front + rest) ==
        if vs.ListErr? then (s1, vs) else (EvalList(c, s1, rest).0, PrependValues(vs.values, EvalList(c, s1, rest).1))
    decreases |front|
  {
    hide Evaluation.Eval;
    if front == [] {
      assert front + rest == rest;
      ConcatNothing(EvalList(c, s, rest).1);
    } else {
      var (s1, v) := Eval(c, s, front[0]);
      assert (front + rest)[1..] == front[1..] + rest;
      ListStep(c, s, front);
      ListStep(c, s, front + rest);
      if v.Ok? {
        ListRunsInOrder(c, s1, front[1..], rest);
        var (s2, vs) := EvalList(c, s1, front[1..]);
        if vs.AllOk? && EvalList(c, s2, rest).1.AllOk? {
          var more := EvalList(c, s2, rest).1.values;
          assert [v.value] + (vs.values + more) == ([v.value] + vs.values) + more;
        }
      }
    }
  }

  lemma {:induction false} ConcatNothing(r: ListResult)
    ensures PrependValues([], r) == r
  {
    if r.AllOk? {
      assert [] + r.values == r.values;
    }
  }

  lemma {:induction false} ListStep(c: Config, s: State, es: seq<Value>)
    requires es != []
    ensures
      var (s1, v) := Eval(c, s, es[0]);
      EvalList(c, s, es) ==
        if v.Err? then (s1, ListErr(v.error)) else (EvalList(c, s1, es[1..]).0, PrependValues([v.value], EvalList(c, s1, es[1..]).1))
  {
    hide Evaluation.Eval;
  }

  lemma {:induction false} ListOfOne(c: Config, s: State, e: Value)
    ensures var (s1, v) := Eval(c, s, e);
      EvalList(c, s, [e]) == (s1, if v.Err? then ListErr(v.error) else AllOk([v.value]))
  {
    hide Evaluation.Eval;
    ListStep(c, s, [e]);
    assert [e][1..] == [];
    var (s1, v) := Eval(c, s, e);
    assert EvalList(c, s1, []) == (s1, AllOk([]));
    if v.Ok? {
      assert [v.value] + [] == [v.value];
    }
  }

  lemma {:induction false} ListOfTwo(c: Config, s: State, a: Value, b: Value)
    ensures
      var (s1, v) := Eval(c, s, a);
      var (s2, w) := Eval(c, s1, b);
      EvalList(c, s, [a, b]) ==
        if v.Err? then (s1, ListErr(v.error))
        else (s2, if w.Err? then ListErr(w.error) else AllOk([v.value, w.value]))
  {
    hide Evaluation.Eval, Evaluation.EvalList;
    assert [a, b] == [a] + [b];
    ListRunsInOrder(c, s, [a], [b]);
    ListOfOne(c, s, a);
    var (s1, v) := Eval(c, s, a);
    ListOfOne(c, s1, b);
    var (s2, w) := Eval(c, s1, b);
    if v.Ok? && w.Ok? {
      assert [v.value] + [w.value] == [v.value, w.value];
    }
  }

  /** The operands of a strict operator run as the list of both, the collection and the index of an access too. */
  lemma {:induction false} OperandsRunAsList(c: Config, s: State, a: Value, op: L.BinaryOp, b: Value)
    requires !op.LogicAnd? && !op.LogicOr?
    ensures
      var (t, vs) := EvalList(c, s, [a, b]);
      && Eval(c, s, Binary(a, op, b)) ==
         (t, if vs.ListErr? then Err(vs.error) else BinaryResult(op, vs.values[0], vs.values[1]))
      && Eval(c, s, IndexAccess(a, b)) ==
         (t, if vs.ListErr? then Err(vs.error) else ElementAt(vs.values[0], vs.values[1]))
  {
    hide Evaluation.BinaryResult, Evaluation.ElementAt, Evaluation.EvalList, Evaluation.Eval, Hir.IsNormal;
    ListOfTwo(c, s, a, b);
    UnfoldOperation(c, s, Binary(a, op, b));
    UnfoldOperation(c, s, IndexAccess(a, b));
    var (s1, v) := Eval(c, s, a);
    if v.Ok? {
      var (s2, i) := Eval(c, s1, b);
      if i.Ok? && ElementAt(v.value, i.value).Ok? {
        IndexAccessReadsElement(c, s, a, b, s1, v.value, s2, i.value);
      }
    }
  }

  /** The operand of a unary operator, of a cast or of a return runs first, and its failure is the failure of the whole. */
  lemma {:induction false} OperandRunsFirst(c: Config, s: State, e: Value, op: L.UnaryOp, target: CastTarget)
    ensures
      var (t, v) := Eval(c, s, e);
      && Eval(c, s, Unary(op, e)) == (t, if v.Err? then v else UnaryResult(op, v.value))
      && Eval(c, s, Cast(e, target)) == (t, if v.Err? then v else CastResult(c, v.value, target))
      && Eval(c, s, Return(e)) == (t, if v.Err? then v else Err(Returned(v.value)))
  {
    hide Evaluation.Eval;
    UnfoldOperation(c, s, Unary(op, e));
    UnfoldOperation(c, s, Cast(e, target));
    UnfoldControl(c, s, Return(e));
  }

  lemma {:induction false} UnfoldOperation(c: Config, s: State, e: Value)
    requires IsOperation(e)
    ensures Eval(c, s, e) == EvalOperation(c, s, e)
    ensures e.Binary? ==> Eval(c, s, e) == EvalBinary(c, s, e.left, e.op, e.right)
    ensures e.IndexAccess? ==> Eval(c, s, e) == EvalIndexAccess(c, s, e.collection, e.index)
    ensures e.FieldAccess? ==> Eval(c, s, e) == EvalFieldAccess(c, s, e.expr, e.fieldName)
  {
    hide Evaluation.EvalBinary, Evaluation.EvalIndexAccess, Evaluation.EvalFieldAccess;
  }

  lemma {:induction false} UnfoldControl(c: Config, s: State, e: Value)
    requires IsControl(e)
    ensures Eval(c, s, e) == EvalControl(c, s, e)
    ensures e.If? ==> Eval(c, s, e) == EvalIf(c, s, e.condition, e.thenBlock, e.elseBlock)
    ensures e.While? ==> Eval(c, s, e) == EvalWhile(c, s, e.condition, e.body)
    ensures e.Loop? ==> Eval(c, s, e) == EvalLoop(c, s, e.body)
    ensures e.BlockExpr? ==> Eval(c, s, e) == EvalBlock(c, s, e.block)
    ensures e.Call? ==> Eval(c, s, e) == EvalCall(c, s, e.callee, e.positional, e.named)
  {
    hide Evaluation.EvalIf, Evaluation.EvalWhile, Evaluation.EvalLoop, Evaluation.EvalBlock, Evaluation.EvalCall;
  }

  /** A call runs callee, positional and named arguments as one list and applies the first value to the others. */
  lemma {:induction false} CallRunsAsList(c: Config, s: State, callee: Value, positional: seq<Value>, named: seq<Field>)
    ensures
      var (t, vs) := EvalList(c, s, [callee] + (positional + FieldValues(named)));
      Eval(c, s, Call(callee, positional, named)) ==
        if vs.ListErr? then (t, Err(vs.error))
        else if !vs.values[0].FunctionSymbol? then (t, Err(TypeError))
        else EvalFunction(c, t, vs.values[0].func, vs.values[1..])
  {
    hide Evaluation.Eval, Evaluation.EvalList, Evaluation.EvalFunction, Hir.FieldValues;
    var ns := FieldValues(named);
    UnfoldControl(c, s, Call(callee, positional, named));
    ListRunsInOrder(c, s, [callee], positional + ns);
    ListOfOne(c, s, callee);
    var (s1, f) := Eval(c, s, callee);
    ListRunsInOrder(c, s1, positional, ns);
    if f.Ok? {
      var (s2, args) := EvalArguments(c, s1, positional, named);
      assert EvalList(c, s1, positional + ns) == (s2, args);
      assert EvalCall(c, s, callee, positional, named) == Apply(c, s2, f.value, args);
      if args.AllOk? {
        var vs := [f.value] + args.values;
        assert EvalList(c, s, [callee] + (positional + ns)) == (s2, AllOk(vs));
        assert vs[1..] == args.values;
      }
    }
  }

  /** A list of values is its own result. */
  lemma {:induction false} CallWithValues(c: Config, s: State, f: Name, positional: seq<Value>, named: seq<Field>)
    requires AllNormal(positional) && AllNormal(FieldValues(named))
    ensures Eval(c, s, Call(FunctionSymbol(f), positional, named)) == EvalFunction(c, s, f, positional + FieldValues(named))
  {
    hide Evaluation.Eval, Evaluation.EvalList, Evaluation.EvalFunction, Hir.FieldValues;
    var args: seq<Value> := positional + FieldValues(named);
    var es := [FunctionSymbol(f)] + args;
    CallRunsAsList(c, s, FunctionSymbol(f), positional, named);
    assert AllNormal(es);
    NormalListIsFixed(c, s, es);
    assert es[1..] == args;
  }

  /** Calling a function that reads its i-th parameter with values gives the i-th of them, positional ones first. */
  lemma {:induction false} CallPassesArgument(c: Config, s: State, f: Name, positional: seq<Value>, named: seq<Field>, i: nat)
    requires AllNormal(positional) && AllNormal(FieldValues(named))
    requires CallAdmitted(c, s, f)
    requires var ps := FunctionNamed(c, f).params; i < |ps| && forall j | i < j < |ps| :: ps[j] != ps[i]
    requires FunctionNamed(c, f).body == Some([Expr(ParameterSymbol(FunctionNamed(c, f).params[i]))])
    ensures Eval(c, s, Call(FunctionSymbol(f), positional, named)) ==
            (s, Ok(if i < |positional| then positional[i]
                   else if i < |positional| + |named| then named[i - |positional|].value
                   else Unit))
  {
    hide Evaluation.Eval, Evaluation.EvalFunction;
    CallWithValues(c, s, f, positional, named);
    var args: seq<Normal> := positional + FieldValues(named);
    CallReadsArgument(c, s, f, args, i);
  }

  /** Elements run in order, each from the state and with the value the one before left. */
  lemma {:induction false} ElementsRunInOrder(c: Config, s: State, front: seq<Element>, rest: seq<Element>, last: Normal)
    ensures
      var (s1, v) := EvalElements(c, s, front, last);
      EvalElements(c, s, front + rest, last) == if v.Err? then (s1, v) else EvalElements(c, s1, rest, v.value)
    decreases |front|
  {
    hide Evaluation.EvalElement;
    if front == [] {
      assert front + rest == rest;
    } else {
      var (s1, v) := EvalElement(c, s, front[0]);
      assert (front + rest)[1..] == front[1..] + rest;
      EvalElementsStep(c, s, front, last);
      EvalElementsStep(c, s, front + rest, last);
      if v.Ok? {
        ElementsRunInOrder(c, s1, front[1..], rest, v.value);
      }
    }
  }

  // ---------------------------------------------------------------------------
  // Variables
  // ---------------------------------------------------------------------------

  /** The two ways to give a local a value. */
  predicate SetsLocal(e: Element, x: Name, rhs: Value) {
    e == Local(x, Some(rhs)) || e == Expr(Assign(LocalVariableSymbol(x), rhs))
  }

  /** After a local is declared or assigned, a name reads the value given if it is that local, and what it read before
      otherwise. The right-hand side runs first. */
  lemma {:induction false} SetThenRead(c: Config, s: State, e: Element, x: Name, rhs: Value, y: Name)
    requires s.frames != [] && SetsLocal(e, x, rhs)
    ensures
      var (s1, v) := Eval(c, s, rhs);
      EvalElements(c, s, [e, Expr(LocalVariableSymbol(y))], Unit) ==
        if v.Err? then (s1, v) else (BindTop(s1, x, v.value), if y == x then v else LookupResult(s1, y))
  {
    hide Evaluation.Eval, Evaluation.EvalElements, Evaluation.BindTop, Evaluation.LookupResult;
    var read := Expr(LocalVariableSymbol(y));
    var (s1, v) := Eval(c, s, rhs);
    assert [e, read] == [e] + [read];
    ElementsRunInOrder(c, s, [e], [read], Unit);
    SingleElement(c, s, e, Unit);
    SetStep(c, s, e, x, rhs);
    if v.Ok? {
      var t := BindTop(s1, x, v.value);
      SingleElement(c, t, read, Unit);
      LookupEvaluates(c, t, y);
      BindThenLookup(s1, x, v.value, y);
    }
  }

  lemma {:induction false} SetStep(c: Config, s: State, e: Element, x: Name, rhs: Value)
    requires s.frames != [] && SetsLocal(e, x, rhs)
    ensures
      var (s1, v) := Eval(c, s, rhs);
      EvalElement(c, s, e) == if v.Err? then (s1, v) else (BindTop(s1, x, v.value), Ok(Unit))
  {
    hide Evaluation.BindTop;
    if e.Expr? {
      UnfoldOperation(c, s, e.value);
    }
  }

  /** A place that is no local is refused after the right-hand side has run, and does not run itself. */
  lemma {:induction false} OtherPlacesRefused(c: Config, s: State, place: Value, rhs: Value)
    requires !place.LocalVariableSymbol?
    ensures
      var (s1, v) := Eval(c, s, rhs);
      Eval(c, s, Assign(place, rhs)) == (s1, if v.Err? then v else Err(Unsupported("assignment to non-local")))
  {
    hide Evaluation.Eval;
    UnfoldOperation(c, s, Assign(place, rhs));
  }

  /** Outside every function a declaration is forgotten and an assignment refused. */
  lemma {:induction false} NoFrameToBind(c: Config, s: State, x: Name, v: Value)
    requires s.frames == [] && IsNormal(v)
    ensures EvalElement(c, s, Local(x, Some(v))) == (s, Ok(Unit))
    ensures Eval(c, s, Assign(LocalVariableSymbol(x), v)) == (s, Err(TypeError))
  {
    hide Evaluation.Eval;
    UnfoldOperation(c, s, Assign(LocalVariableSymbol(x), v));
    NormalIsFixed(c, s, v);
  }

  /** A local declared without a value is unit. */
  lemma {:induction false} DeclaredIsUnit(c: Config, s: State, x: Name)
    ensures EvalElement(c, s, Local(x, None)) == EvalElement(c, s, Local(x, Some(Unit)))
  {
    hide Evaluation.BindTop;
    NormalIsFixed(c, s, Unit);
  }

  // ---------------------------------------------------------------------------
  // Aggregates
  // ---------------------------------------------------------------------------

  /** The same constructor, definition, variant and field names, in the same order. */
  predicate SameShape(a: Value, b: Value) {
    match (a, b)
    case (StructObject(d1, f1), StructObject(d2, f2)) =>
      d1 == d2 && |f1| == |f2| && forall i | 0 <= i < |f1| :: f1[i].name == f2[i].name
    case (EnumVariant(d1, v1, _), EnumVariant(d2, v2, _)) => d1 == d2 && v1 == v2
    case (List(e1), List(e2)) => |e1| == |e2|
    case (Tuple(e1), Tuple(e2)) => |e1| == |e2|
    case _ => false
  }

  /** Rebuilding keeps the shape and puts every component in its place. */
  lemma {:induction false} RebuiltComponents(e: Value, vs: seq<Normal>)
    requires IsAggregate(e) && |vs| == |Components(e)|
    ensures var r := Rebuild(e, vs); IsAggregate(r) && SameShape(e, r) && Components(r) == vs
  {
    if e.StructObject? {
      assert FieldValues(WithValues(e.fields, vs)) == vs;
    }
  }

  /** A field access on a structure of values gives the first field of the name, and fails when there is none. */
  lemma {:induction false} FieldOfStruct(c: Config, s: State, def: Name, fields: seq<Field>, x: Name, i: nat)
    requires IsNormal(StructObject(def, fields))
    requires i <= |fields| && (forall j | 0 <= j < i :: fields[j].name != x) && (i < |fields| ==> fields[i].name == x)
    ensures Eval(c, s, FieldAccess(StructObject(def, fields), x)) ==
            (s, if i < |fields| then Ok(fields[i].value) else Err(TypeError))
  {
    hide Evaluation.Eval, Evaluation.FindField;
    var e := StructObject(def, fields);
    UnfoldOperation(c, s, FieldAccess(e, x));
    FieldAccessReadsField(c, s, e, x);
    NormalIsFixed(c, s, e);
    FirstField(fields, x, i);
  }

  lemma {:induction false} FirstField(fields: seq<Field>, x: Name, i: nat)
    requires i <= |fields| && (forall j | 0 <= j < i :: fields[j].name != x) && (i < |fields| ==> fields[i].name == x)
    ensures FindField(fields, x) == if i < |fields| then Some(fields[i].value) else None
    decreases |fields|
  {
    if i > 0 {
      FirstField(fields[1..], x, i - 1);
    }
  }

  /** Indexing counts from the start; at and beyond the end, and below zero, it fails. */
  lemma {:induction false} ElementByIndex(c: Config, s: State, vs: seq<Value>, collection: Value, i: MachineInt)
    requires AllNormal(vs) && (collection == List(vs) || collection == Tuple(vs))
    requires !i.kind.I128? && !i.kind.U128?
    ensures Eval(c, s, IndexAccess(collection, Int(i))) ==
            (s, if i.value < 0 then Err(TypeError) else if i.value < |vs| then Ok(vs[i.value]) else Err(OutOfBoundsAccess))
  {
    hide Evaluation.Eval, Evaluation.EvalList;
    var es := [collection, Int(i)];
    OperandsRunAsList(c, s, collection, L.Add, Int(i));
    assert AllNormal(es);
    NormalListIsFixed(c, s, es);
  }

  // ---------------------------------------------------------------------------
  // Control
  // ---------------------------------------------------------------------------

  /** A block of one expression is that expression, in the block's safety context. */
  lemma {:induction false} BlockOfOne(c: Config, s: State, safety: Safety, e: Value)
    ensures
      var (t, r) := Eval(c, s.(safety := safety), e);
      EvalBlock(c, s, Block(safety, [Expr(e)])) == (t.(safety := s.safety), r)
  {
    hide Evaluation.Eval, Evaluation.EvalElements;
    SingleElement(c, s.(safety := safety), Expr(e), Unit);
  }

  /** The block of one expression in the context it stands in. */
  function Alone(s: State, e: Value): Block {
    Block(s.safety, [Expr(e)])
  }

  /** `a && b` is `if a { b } else { false }`, and `a || b` is `if a { true } else { b }`. */
  lemma {:induction false} ShortCircuitIsIf(c: Config, s: State, a: Value, b: Value)
    ensures Eval(c, s, Binary(a, L.LogicAnd, b)) == Eval(c, s, If(a, Alone(s, b), Some(Alone(s, Bool(false)))))
    ensures Eval(c, s, Binary(a, L.LogicOr, b)) == Eval(c, s, If(a, Alone(s, Bool(true)), Some(Alone(s, b))))
  {
    hide Evaluation.Eval, Evaluation.EvalBlock;
    UnfoldOperation(c, s, Binary(a, L.LogicAnd, b));
    UnfoldOperation(c, s, Binary(a, L.LogicOr, b));
    UnfoldControl(c, s, If(a, Alone(s, b), Some(Alone(s, Bool(false)))));
    UnfoldControl(c, s, If(a, Alone(s, Bool(true)), Some(Alone(s, b))));
    var (s1, v) := Eval(c, s, a);
    assert s1.(safety := s.safety) == s1;
    BlockOfOne(c, s1, s.safety, b);
    BlockOfOne(c, s1, s.safety, Bool(true));
    BlockOfOne(c, s1, s.safety, Bool(false));
    NormalIsFixed(c, s1, Bool(true));
    NormalIsFixed(c, s1, Bool(false));
    assert Eval(c, s1, b).0.(safety := s.safety) == Eval(c, s1, b).0;
  }

  /** A constant condition picks its branch, a missing one being unit; any other value is a type error. */
  lemma {:induction false} ConstantCondition(c: Config, s: State, v: Value, t: Block, e: Block)
    requires IsNormal(v)
    ensures Eval(c, s, If(v, t, Some(e))) ==
            if v == Bool(true) then EvalBlock(c, s, t) else if v == Bool(false) then EvalBlock(c, s, e) else (s, Err(TypeError))
    ensures Eval(c, s, If(v, t, None)) == Eval(c, s, If(v, t, Some(Alone(s, Unit))))
  {
    hide Evaluation.Eval, Evaluation.EvalBlock;
    UnfoldControl(c, s, If(v, t, Some(e)));
    UnfoldControl(c, s, If(v, t, None));
    UnfoldControl(c, s, If(v, t, Some(Alone(s, Unit))));
    NormalIsFixed(c, s, v);
    BlockOfOne(c, s, s.safety, Unit);
    NormalIsFixed(c, s, Unit);
    assert s.(safety := s.safety) == s;
  }

  /** `while true` and the unconditional loop are the same; while budget is left, `while false` is unit and any other
      value a type error. */
  lemma {:induction false} WhileTrueIsLoop(c: Config, s: State, body: Block, v: Value)
    ensures EvalWhile(c, s, Bool(true), body) == EvalLoop(c, s, body)
    ensures s.loopCount < c.loopLimit ==> EvalWhile(c, s, Bool(false), body) == (s, Ok(Unit))
    ensures s.loopCount < c.loopLimit && IsNormal(v) && !v.Bool? ==> EvalWhile(c, s, v, body) == (s, Err(TypeError))
    decreases LoopLeft(c, s)
  {
    hide Evaluation.Eval, Evaluation.EvalIteration;
    if IsNormal(v) {
      NormalIsFixed(c, s, v);
    }
    NormalIsFixed(c, s, Bool(true));
    NormalIsFixed(c, s, Bool(false));
    if s.loopCount < c.loopLimit {
      var (s1, step) := EvalIteration(c, s, body);
      WhileTrueIsLoop(c, s1, body, v);
    }
  }

  lemma {:induction false} FailureEndsBlock(c: Config, s: State, safety: Safety, e: Value, error: EvalError, rest: seq<Element>)
    requires Eval(c, s.(safety := safety), e) == (s.(safety := safety), Err(error))
    ensures EvalBlock(c, s, Block(safety, [Expr(e)] + rest)) == (s, Err(error))
  {
    hide Evaluation.Eval, Evaluation.EvalElements;
    var inner := s.(safety := safety);
    ElementsRunInOrder(c, inner, [Expr(e)], rest, Unit);
    SingleElement(c, inner, Expr(e), Unit);
    assert inner.(safety := s.safety) == s;
  }

  lemma {:induction false} JumpStep(c: Config, s: State, e: Value)
    requires e.Break? || e.Continue?
    ensures Eval(c, s, e) == (s, Err(if e.Break? then BreakOut(e.loopLabel) else ContinueOut(e.loopLabel)))
  {
  }

  lemma {:induction false} ReturnsValue(c: Config, s: State, v: Value)
    requires IsNormal(v)
    ensures Eval(c, s, Return(v)) == (s, Err(Returned(v)))
  {
    UnfoldControl(c, s, Return(v));
    NormalIsFixed(c, s, v);
  }

  /** A break with any label ends the loop around it after one counted pass, with unit. */
  lemma {:induction false} BreakEndsLoop(c: Config, s: State, safety: Safety, l: Option<Name>, rest: seq<Element>)
    requires s.loopCount < c.loopLimit
    ensures EvalLoop(c, s, Block(safety, [Expr(Break(l))] + rest)) == (s.(loopCount := s.loopCount + 1), Ok(Unit))
  {
    hide Evaluation.Eval, Evaluation.EvalElements, Evaluation.EvalBlock;
    var next := s.(loopCount := s.loopCount + 1);
    JumpStep(c, next.(safety := safety), Break(l));
    FailureEndsBlock(c, next, safety, Break(l), BreakOut(l), rest);
  }

  /** A return inside a loop leaves the loop as well, after one counted pass. */
  lemma {:induction false} ReturnLeavesLoop(c: Config, s: State, safety: Safety, v: Value, rest: seq<Element>)
    requires s.loopCount < c.loopLimit && IsNormal(v)
    ensures EvalLoop(c, s, Block(safety, [Expr(Return(v))] + rest)) ==
            (s.(loopCount := s.loopCount + 1), Err(Returned(v)))
  {
    hide Evaluation.Eval, Evaluation.EvalElements, Evaluation.EvalBlock;
    var next := s.(loopCount := s.loopCount + 1);
    ReturnsValue(c, next.(safety := safety), v);
    FailureEndsBlock(c, next, safety, Return(v), Returned(v), rest);
  }

  /** A continue with any label starts the next pass: a loop that only continues uses up the budget and fails. */
  lemma {:induction false} ContinueGoesRound(c: Config, s: State, safety: Safety, l: Option<Name>, rest: seq<Element>)
    requires s.loopCount <= c.loopLimit
    ensures EvalLoop(c, s, Block(safety, [Expr(Continue(l))] + rest)) ==
            (s.(loopCount := c.loopLimit), Err(LoopLimitExceeded))
    decreases LoopLeft(c, s)
  {
    hide Evaluation.Eval, Evaluation.EvalElements, Evaluation.EvalBlock;
    if s.loopCount < c.loopLimit {
      var next := s.(loopCount := s.loopCount + 1);
      JumpStep(c, next.(safety := safety), Continue(l));
      FailureEndsBlock(c, next, safety, Continue(l), ContinueOut(l), rest);
      ContinueGoesRound(c, next, safety, l, rest);
    } else {
      assert s.(loopCount := c.loopLimit) == s;
    }
  }

  /** A jump at the start of a function's body ends the call whatever follows it: a return with its value, a break or a
      continue as the error of the call. */
  lemma {:induction false} JumpEndsCall(c: Config, s: State, f: Name, e: Value, rest: seq<Element>, args: seq<Normal>)
    requires CallAdmitted(c, s, f)
    requires e.Break? || e.Continue? || (e.Return? && IsNormal(e.expr))
    requires FunctionNamed(c, f).body == Some([Expr(e)] + rest)
    ensures EvalFunction(c, s, f, args) ==
            (s, if e.Return? then Ok(e.expr)
                else Err(if e.Break? then BreakOut(e.loopLabel) else ContinueOut(e.loopLabel)))
  {
    hide Evaluation.Eval, Evaluation.EvalElements, Evaluation.BindParams;
    var inner := s.(callDepth := s.callDepth + 1,
                    frames := s.frames + [Frame(map[], BindParams(FunctionNamed(c, f).params, args))]);
    ElementsRunInOrder(c, inner, [Expr(e)], rest, Unit);
    SingleElement(c, inner, Expr(e), Unit);
    if e.Return? {
      ReturnsValue(c, inner, e.expr);
    } else {
      JumpStep(c, inner, e);
    }
    assert inner.frames[..|s.frames|] == s.frames;
  }

  /** A break that a function leaves unused ends the loop of its caller. */
  lemma {:induction false} CalleeEndsCallersLoop(c: Config, s: State, f: Name, l: Option<Name>, rest: seq<Element>)
    requires s.loopCount < c.loopLimit && CallAdmitted(c, s, f)
    requires FunctionNamed(c, f).body == Some([Expr(Break(l))])
    ensures EvalLoop(c, s, Block(s.safety, [Expr(Call(FunctionSymbol(f), [], []))] + rest)) ==
            (s.(loopCount := s.loopCount + 1), Ok(Unit))
  {
    hide Evaluation.Eval, Evaluation.EvalElements, Evaluation.EvalBlock, Evaluation.EvalFunction;
    var call := Call(FunctionSymbol(f), [], []);
    var next := s.(loopCount := s.loopCount + 1);
    var none: seq<Value> := [];
    assert next.(safety := s.safety) == next;
    CallWithValues(c, next, f, none, []);
    assert [Expr(Break(l))] + [] == [Expr(Break(l))];
    JumpEndsCall(c, next, f, Break(l), [], none + FieldValues([]));
    FailureEndsBlock(c, next, s.safety, call, BreakOut(l), rest);
  }

  /** A call that is too deep, unsafe in a safe context, or without a body, as that of an unknown function, is refused
      before anything runs, for the first of these reasons that holds. */
  lemma {:induction false} CallRefused(c: Config, s: State, f: Name, args: seq<Normal>)
    requires !CallAdmitted(c, s, f) || FunctionNamed(c, f).body.None?
    ensures f !in c.functions ==> !FunctionNamed(c, f).isUnsafe && FunctionNamed(c, f).body.None?
    ensures EvalFunction(c, s, f, args) ==
            (s, Err(if s.callDepth >= c.callDepthLimit then CallDepthExceeded
                    else if FunctionNamed(c, f).isUnsafe && s.safety.Safe? then UnsafeInSafeContext
                    else Unsupported("extern function call")))
  {
  }

  /** These forms are never evaluated: they fail at once, whatever is inside them. */
  lemma {:induction false} UnsupportedForms(c: Config, s: State, e: Value)
    requires e.Borrow? || e.Deref? || e.MethodCall? || e.GlobalVariableSymbol? || e.Range?
    ensures Eval(c, s, e).0 == s && Eval(c, s, e).1.Err? && Eval(c, s, e).1.error.Unsupported?
  {
  }

  /** A function that calls itself without end fails at the call depth limit and leaves no trace. */
  lemma {:induction false} EndlessRecursion(c: Config, s: State, f: Name, args: seq<Normal>)
    requires !FunctionNamed(c, f).isUnsafe
    requires FunctionNamed(c, f).body == Some([Expr(Call(FunctionSymbol(f), [], []))])
    ensures EvalFunction(c, s, f, args) == (s, Err(CallDepthExceeded))
    decreases DepthLeft(c, s)
  {
    hide Evaluation.Eval, Evaluation.EvalElements, Evaluation.BindParams;
    if s.callDepth < c.callDepthLimit {
      var call := Call(FunctionSymbol(f), [], []);
      var inner := s.(callDepth := s.callDepth + 1,
                      frames := s.frames + [Frame(map[], BindParams(FunctionNamed(c, f).params, args))]);
      SingleElement(c, inner, Expr(call), Unit);
      var none: seq<Value> := [];
      CallWithValues(c, inner, f, none, []);
      EndlessRecursion(c, inner, f, none + FieldValues([]));
      assert inner.frames[..|s.frames|] == s.frames;
    }
  }

  /** An unsafe function is refused in a safe context and runs inside an unsafe block. */
  lemma {:induction false} UnsafeNeedsUnsafeBlock(c: Config, s: State, f: Name, v: Value)
    requires s.callDepth < c.callDepthLimit && IsNormal(v)
    requires FunctionNamed(c, f) == Function([], true, Some([Expr(v)]))
    ensures
      var call := Expr(Call(FunctionSymbol(f), [], []));
      && EvalBlock(c, s, Block(Safe, [call])) == (s, Err(UnsafeInSafeContext))
      && EvalBlock(c, s, Block(Unsafe, [call])) == (s, Ok(v))
  {
    hide Evaluation.Eval, Evaluation.EvalElements, Evaluation.EvalBlock, Evaluation.BindParams;
    var call := Call(FunctionSymbol(f), [], []);
    var none: seq<Value> := [];
    var args: seq<Normal> := none + FieldValues([]);
    var outer := s.(safety := Unsafe);
    BlockOfOne(c, s, Safe, call);
    BlockOfOne(c, s, Unsafe, call);
    CallWithValues(c, s.(safety := Safe), f, none, []);
    CallWithValues(c, outer, f, none, []);
    var inner := outer.(callDepth := s.callDepth + 1, frames := s.frames + [Frame(map[], BindParams([], args))]);
    SingleElement(c, inner, Expr(v), Unit);
    NormalIsFixed(c, inner, v);
    assert inner.frames[..|s.frames|] == s.frames;
    assert s.(safety := Safe).(safety := s.safety) == s && outer.(safety := s.safety) == s;
  }
}
