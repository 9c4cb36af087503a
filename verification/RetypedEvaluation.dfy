/** Evaluation keeps related programs related, outcome by outcome. */
module RetypedEvaluation {
  import opened Wrappers
  import L = Literals
  import opened Hir
  import opened Evaluation
  import opened ReturnInsertion
  import opened Retyping

  lemma {:induction false} LeafRelated(m: Mode, s: State, s': State, e: Value, e': Value)
    requires RelState(m, s, s') && Rel(m, e, e')
    requires IsLeaf(e)
    ensures IsLeaf(e') && RelResult(m, EvalLeaf(s, e), EvalLeaf(s', e'))
  {
    if e.LocalVariableSymbol? || e.ParameterSymbol? {
      SameLookup(m, s.frames, s'.frames, e.name);
    }
  }

  /** Values without components or integers are related only to themselves. */
  lemma {:induction false} SimpleRelated(m: Mode, v: Value, v': Value)
    requires Rel(m, v, v')
    ensures (v.Bool? <==> v'.Bool?) && (v.Bool? ==> v.b == v'.b)
    ensures (v.FunctionSymbol? <==> v'.FunctionSymbol?) && (v.FunctionSymbol? ==> v.func == v'.func)
    ensures Rel(m, Unit, Unit) && Rel(m, Bool(true), Bool(true)) && Rel(m, Bool(false), Bool(false))
  {
  }

  lemma {:induction false} PlainErrorsRelated(m: Mode)
    ensures RelError(m, TypeError, TypeError)
    ensures RelError(m, LoopLimitExceeded, LoopLimitExceeded)
  {
  }

  lemma {:induction false} UnitRelated(m: Mode)
    ensures Rel(m, Unit, Unit)
  {
  }

  lemma {:induction false} SameLimits(m: Mode, c: Config, c': Config)
    requires RelConfig(m, c, c')
    ensures c.pointerBits == c'.pointerBits && c.loopLimit == c'.loopLimit && c.callDepthLimit == c'.callDepthLimit
  {
  }

  lemma {:induction false} LoopStepRelated(m: Mode, s: State, s': State)
    requires RelState(m, s, s')
    ensures s.loopCount == s'.loopCount
    ensures RelState(m, s.(loopCount := s.loopCount + 1), s'.(loopCount := s'.loopCount + 1))
  {
  }

  lemma {:induction false} ConcatRelated(m: Mode, a: seq<Value>, a': seq<Value>, b: seq<Value>, b': seq<Value>)
    requires RelList(m, a, a') && RelList(m, b, b')
    ensures RelList(m, a + b, a' + b')
  {
    hide Rel;
  }

  predicate IsLeaf(e: Value) {
    !IsOperation(e) && !IsControl(e) && !IsAggregate(e)
  }

  /** The logical relation: programs and states that differ only in the kinds of their integers have outcomes
      that differ only so: the same error, or related values, and related frames. */
  lemma {:induction false} EvalRelated(m: Mode, c: Config, c': Config, s: State, s': State, e: Value, e': Value)
    requires RelConfig(m, c, c') && RelState(m, s, s') && Rel(m, e, e')
    ensures RelOutcome(m, Eval(c, s, e), Eval(c', s', e'))
    decreases LoopLeft(c, s), DepthLeft(c, s), if IsNormal(e) then 0 else 1, Size(e), 2
  {
    hide BelowTopSame, RelError, Rel, RelState, RelResult, RelConfig, EvalLeaf, EvalOperation, EvalControl, EvalAggregate;
    if IsOperation(e) {
      OperationRelated(m, c, c', s, s', e, e');
    } else if IsControl(e) {
      ControlRelated(m, c, c', s, s', e, e');
    } else if IsAggregate(e) {
      AggregateRelated(m, c, c', s, s', e, e');
    } else {
      LeafRelated(m, s, s', e, e');
    }
  }

  lemma {:induction false} OperationRelated(m: Mode, c: Config, c': Config, s: State, s': State, e: Value, e': Value)
    requires RelConfig(m, c, c') && RelState(m, s, s') && Rel(m, e, e') && IsOperation(e)
    ensures IsOperation(e')
    ensures RelOutcome(m, EvalOperation(c, s, e), EvalOperation(c', s', e'))
    decreases LoopLeft(c, s), DepthLeft(c, s), 1, Size(e), 1
  {
    hide BelowTopSame, RelOutcome, RelState, RelConfig, RelList, RelFields, RelBlock, Hir.IsNormal, Eval;
    match e
    case Binary(left, op, right) => BinaryRelated(m, c, c', s, s', left, e'.left, op, right, e'.right);
    case Unary(op, operand) => UnaryRelated(m, c, c', s, s', op, operand, e'.operand);
    case Cast(expr, target) => CastRelated(m, c, c', s, s', expr, e'.expr, target);
    case FieldAccess(expr, x) => FieldAccessRelated(m, c, c', s, s', expr, e'.expr, x);
    case IndexAccess(collection, index) =>
      IndexAccessRelated(m, c, c', s, s', collection, e'.collection, index, e'.index);
    case Assign(place, rhs) => AssignRelated(m, c, c', s, s', place, e'.place, rhs, e'.rhs);
  }

  lemma {:induction false} ControlRelated(m: Mode, c: Config, c': Config, s: State, s': State, e: Value, e': Value)
    requires RelConfig(m, c, c') && RelState(m, s, s') && Rel(m, e, e') && IsControl(e)
    ensures IsControl(e')
    ensures RelOutcome(m, EvalControl(c, s, e), EvalControl(c', s', e'))
    decreases LoopLeft(c, s), DepthLeft(c, s), 1, Size(e), 1
  {
    hide BelowTopSame, RelOutcome, RelState, RelConfig, RelList, RelFields, RelBlock, Hir.IsNormal, Eval;
    match e
    case If(condition, yes, no) =>
      IfRelated(m, c, c', s, s', condition, e'.condition, yes, e'.thenBlock, no, e'.elseBlock);
    case While(condition, body) => WhileRelated(m, c, c', s, s', condition, e'.condition, body, e'.body);
    case Loop(body) => LoopRelated(m, c, c', s, s', body, e'.body);
    case Return(expr) => ReturnRelated(m, c, c', s, s', expr, e'.expr);
    case BlockExpr(block) => BlockRelated(m, c, c', s, s', block, e'.block);
    case Call(callee, positional, named) =>
      CallRelated(m, c, c', s, s', callee, e'.callee, positional, e'.positional, named, e'.named);
  }

  lemma {:induction false} UnaryRelated(m: Mode, c: Config, c': Config, s: State, s': State, op: L.UnaryOp, e: Value, e': Value)
    requires RelConfig(m, c, c') && RelState(m, s, s') && Rel(m, e, e')
    ensures RelOutcome(m, EvalOperation(c, s, Unary(op, e)), EvalOperation(c', s', Unary(op, e')))
    decreases LoopLeft(c, s), DepthLeft(c, s), 1, 1 + Size(e), 0
  {
    hide BelowTopSame, RelError, Rel, RelState, RelConfig, UnaryResult, Eval;
    EvalRelated(m, c, c', s, s', e, e');
    var v, v' := Eval(c, s, e).1, Eval(c', s', e').1;
    if v.Ok? {
      SameUnary(m, op, v.value, v'.value);
    }
  }

  lemma {:induction false} ReturnRelated(m: Mode, c: Config, c': Config, s: State, s': State, e: Value, e': Value)
    requires RelConfig(m, c, c') && RelState(m, s, s') && Rel(m, e, e')
    ensures RelOutcome(m, EvalControl(c, s, Return(e)), EvalControl(c', s', Return(e')))
    decreases LoopLeft(c, s), DepthLeft(c, s), 1, 1 + Size(e), 0
  {
    hide BelowTopSame, Rel, RelState, RelConfig, Eval;
    EvalRelated(m, c, c', s, s', e, e');
  }

  lemma {:induction false} CastRelated(m: Mode, c: Config, c': Config, s: State, s': State, e: Value, e': Value, target: CastTarget)
    requires RelConfig(m, c, c') && RelState(m, s, s') && Rel(m, e, e')
    ensures RelOutcome(m, EvalOperation(c, s, Cast(e, target)), EvalOperation(c', s', Cast(e', target)))
    decreases LoopLeft(c, s), DepthLeft(c, s), 1, 1 + Size(e), 0
  {
    hide BelowTopSame, RelError, Rel, RelState, RelConfig, CastResult, Eval;
    SameLimits(m, c, c');
    EvalRelated(m, c, c', s, s', e, e');
    var v, v' := Eval(c, s, e).1, Eval(c', s', e').1;
    if v.Ok? {
      SameCast(m, c, c', v.value, v'.value, target);
    }
  }

  lemma {:induction false} AssignRelated(m: Mode, c: Config, c': Config, s: State, s': State,
                                         place: Value, place': Value, e: Value, e': Value)
    requires RelConfig(m, c, c') && RelState(m, s, s') && Rel(m, e, e') && RelPlace(m, place, place')
    ensures RelOutcome(m, EvalOperation(c, s, Assign(place, e)), EvalOperation(c', s', Assign(place', e')))
    decreases LoopLeft(c, s), DepthLeft(c, s), 1, 1 + Size(e), 0
  {
    hide BelowTopSame, Rel, RelState, RelConfig, Eval, BindTop;
    EvalRelated(m, c, c', s, s', e, e');
    var (t, v) := Eval(c, s, e);
    var (t', v') := Eval(c', s', e');
    if v.Ok? {
      AssignResultRelated(m, t, t', place, place', v.value, v'.value);
    }
  }

  lemma {:induction false} AssignResultRelated(m: Mode, s: State, s': State, place: Value, place': Value,
                                               v: Normal, v': Normal)
    requires RelState(m, s, s') && Rel(m, v, v') && RelPlace(m, place, place')
    ensures RelOutcome(m, AssignResult(s, place, v), AssignResult(s', place', v'))
  {
    hide Rel, RelFrame, BindTop;
    UnitRelated(m);
    if place.LocalVariableSymbol? {
      BindTopRelated(m, s, s', place.name, v, v');
    }
  }

  lemma {:induction false} AggregateRelated(m: Mode, c: Config, c': Config, s: State, s': State, e: Value, e': Value)
    requires RelConfig(m, c, c') && RelState(m, s, s') && Rel(m, e, e') && IsAggregate(e)
    ensures IsAggregate(e')
    ensures RelOutcome(m, EvalAggregate(c, s, e), EvalAggregate(c', s', e'))
    decreases LoopLeft(c, s), DepthLeft(c, s), if IsNormal(e) then 0 else 1, Size(e), 0
  {
    hide BelowTopSame, RelError, Eval, Rel, RelConfig, RelState, RelList, Components, Rebuild;
    ComponentsRelated(m, e, e');
    var vs, vs' := Components(e), Components(e');
    ListRelated(m, c, c', s, s', vs, vs');
    var r, r' := EvalList(c, s, vs).1, EvalList(c', s', vs').1;
    if r.AllOk? {
      RebuildRelated(m, e, e', r.values, r'.values);
    }
  }

  lemma {:induction false} ListRelated(m: Mode, c: Config, c': Config, s: State, s': State, es: seq<Value>, es': seq<Value>)
    requires RelConfig(m, c, c') && RelState(m, s, s') && RelList(m, es, es')
    ensures var (t, r), (t', r') := EvalList(c, s, es), EvalList(c', s', es'); RelState(m, t, t') && RelListResult(m, r, r')
    decreases LoopLeft(c, s), DepthLeft(c, s), if AllNormal(es) then 0 else 1, ValuesSize(es), 0
  {
    hide BelowTopSame, RelError, Eval, Rel, RelConfig, RelState;
    if es != [] {
      EvalRelated(m, c, c', s, s', es[0], es'[0]);
      var (t, v) := Eval(c, s, es[0]);
      var (t', v') := Eval(c', s', es'[0]);
      if v.Ok? {
        ListRelated(m, c, c', t, t', es[1..], es'[1..]);
      }
    }
  }

  lemma {:induction false} BinaryRelated(m: Mode, c: Config, c': Config, s: State, s': State,
                                         left: Value, left': Value, op: L.BinaryOp, right: Value, right': Value)
    requires RelConfig(m, c, c') && RelState(m, s, s') && Rel(m, left, left') && Rel(m, right, right')
    ensures RelOutcome(m, EvalBinary(c, s, left, op, right), EvalBinary(c', s', left', op, right'))
    decreases LoopLeft(c, s), DepthLeft(c, s), 1, 1 + Size(left) + Size(right), 0
  {
    hide BelowTopSame, RelError, Eval, Rel, RelConfig, RelState, BinaryResult;
    PlainErrorsRelated(m);
    EvalRelated(m, c, c', s, s', left, left');
    var (t, v) := Eval(c, s, left);
    var (t', v') := Eval(c', s', left');
    if v.Ok? {
      SimpleRelated(m, v.value, v'.value);
      EvalRelated(m, c, c', t, t', right, right');
      var (u, w) := Eval(c, t, right);
      var (u', w') := Eval(c', t', right');
      if w.Ok? && !op.LogicAnd? && !op.LogicOr? {
        SameBinary(m, op, v.value, v'.value, w.value, w'.value);
      }
    }
  }

  predicate RelElse(m: Mode, a: Option<Block>, b: Option<Block>) {
    if a.Some? then b.Some? && RelBlock(m, a.value, b.value) else b.None?
  }

  lemma {:induction false} IfRelated(m: Mode, c: Config, c': Config, s: State, s': State, e: Value, e': Value,
                                     yes: Block, yes': Block, no: Option<Block>, no': Option<Block>)
    requires RelConfig(m, c, c') && RelState(m, s, s') && Rel(m, e, e') && RelBlock(m, yes, yes') && RelElse(m, no, no')
    ensures RelOutcome(m, EvalIf(c, s, e, yes, no), EvalIf(c', s', e', yes', no'))
    decreases LoopLeft(c, s), DepthLeft(c, s), 1,
              1 + Size(e) + BlockSize(yes) + (if no.Some? then BlockSize(no.value) else 0), 0
  {
    hide BelowTopSame, Hir.IsNormal, Rel, RelError, RelConfig, RelState, RelBlock, Eval, EvalBlock;
    UnitRelated(m);
    PlainErrorsRelated(m);
    EvalRelated(m, c, c', s, s', e, e');
    var (t, v) := Eval(c, s, e);
    var (t', v') := Eval(c', s', e');
    if v.Ok? {
      SimpleRelated(m, v.value, v'.value);
      if v.value.Bool? && v.value.b {
        BlockRelated(m, c, c', t, t', yes, yes');
      } else if v.value.Bool? && no.Some? {
        BlockRelated(m, c, c', t, t', no.value, no'.value);
      }
    }
  }

  lemma {:induction false} FieldAccessRelated(m: Mode, c: Config, c': Config, s: State, s': State, e: Value, e': Value, x: Name)
    requires RelConfig(m, c, c') && RelState(m, s, s') && Rel(m, e, e')
    ensures RelOutcome(m, EvalFieldAccess(c, s, e, x), EvalFieldAccess(c', s', e', x))
    decreases LoopLeft(c, s), DepthLeft(c, s), 1, 1 + Size(e), 0
  {
    hide BelowTopSame, RelError, Eval, Rel, RelConfig, RelState, FieldOf;
    EvalRelated(m, c, c', s, s', e, e');
    var (t, v) := Eval(c, s, e);
    var (t', v') := Eval(c', s', e');
    if v.Ok? {
      SameField(m, v.value, v'.value, x);
      var field, field' := FieldOf(v.value, x), FieldOf(v'.value, x);
      if field.Ok? {
        EvalRelated(m, c, c', t, t', field.value, field'.value);
      }
    }
  }

  lemma {:induction false} IndexAccessRelated(m: Mode, c: Config, c': Config, s: State, s': State,
                                              e: Value, e': Value, i: Value, i': Value)
    requires RelConfig(m, c, c') && RelState(m, s, s') && Rel(m, e, e') && Rel(m, i, i') && !m.SameImage?
    ensures RelOutcome(m, EvalIndexAccess(c, s, e, i), EvalIndexAccess(c', s', e', i'))
    decreases LoopLeft(c, s), DepthLeft(c, s), 1, 1 + Size(e) + Size(i), 0
  {
    hide BelowTopSame, RelError, Eval, Rel, RelConfig, RelState, ElementAt;
    EvalRelated(m, c, c', s, s', e, e');
    var (t, v) := Eval(c, s, e);
    var (t', v') := Eval(c', s', e');
    if v.Ok? {
      EvalRelated(m, c, c', t, t', i, i');
      var (u, w) := Eval(c, t, i);
      var (u', w') := Eval(c', t', i');
      if w.Ok? {
        SameElement(m, v.value, v'.value, w.value, w'.value);
        var element, element' := ElementAt(v.value, w.value), ElementAt(v'.value, w'.value);
        if element.Ok? {
          EvalRelated(m, c, c', u, u', element.value, element'.value);
        }
      }
    }
  }

  lemma {:induction false} ArgumentsRelated(m: Mode, c: Config, c': Config, s: State, s': State,
                                            positional: seq<Value>, positional': seq<Value>, named: seq<Field>, named': seq<Field>)
    requires RelConfig(m, c, c') && RelState(m, s, s') && RelList(m, positional, positional') && RelFields(m, named, named')
    ensures var (t, r), (t', r') := EvalArguments(c, s, positional, named), EvalArguments(c', s', positional', named');
      RelState(m, t, t') && RelListResult(m, r, r')
    decreases LoopLeft(c, s), DepthLeft(c, s), 1, ValuesSize(positional) + FieldsSize(named), 1
  {
    hide BelowTopSame, RelError, Eval, EvalList, Rel, RelConfig, RelState, RelList, RelFields;
    FieldValuesRelated(m, named, named');
    ListRelated(m, c, c', s, s', positional, positional');
    var (t, ps) := EvalList(c, s, positional);
    var (t', ps') := EvalList(c', s', positional');
    if ps.AllOk? {
      ListRelated(m, c, c', t, t', FieldValues(named), FieldValues(named'));
      var ns, ns' := EvalList(c, t, FieldValues(named)).1, EvalList(c', t', FieldValues(named')).1;
      if ns.AllOk? {
        ConcatRelated(m, ps.values, ps'.values, ns.values, ns'.values);
      }
    }
  }

  lemma {:induction false} CallRelated(m: Mode, c: Config, c': Config, s: State, s': State, e: Value, e': Value,
                                       positional: seq<Value>, positional': seq<Value>, named: seq<Field>, named': seq<Field>)
    requires RelConfig(m, c, c') && RelState(m, s, s') && Rel(m, e, e')
    requires RelList(m, positional, positional') && RelFields(m, named, named')
    ensures RelOutcome(m, EvalCall(c, s, e, positional, named), EvalCall(c', s', e', positional', named'))
    decreases LoopLeft(c, s), DepthLeft(c, s), 1, 1 + Size(e) + ValuesSize(positional) + FieldsSize(named), 0
  {
    hide BelowTopSame, Hir.IsNormal, RelError, Eval, CallWith, Rel, RelConfig, RelState, RelList, RelFields;
    EvalRelated(m, c, c', s, s', e, e');
    var (t, f) := Eval(c, s, e);
    var (t', f') := Eval(c', s', e');
    if f.Ok? {
      CallWithRelated(m, c, c', t, t', f.value, f'.value, positional, positional', named, named');
    }
  }

  lemma {:induction false} CallWithRelated(m: Mode, c: Config, c': Config, s: State, s': State, f: Normal, f': Normal,
                                           positional: seq<Value>, positional': seq<Value>, named: seq<Field>, named': seq<Field>)
    requires RelConfig(m, c, c') && RelState(m, s, s') && Rel(m, f, f')
    requires RelList(m, positional, positional') && RelFields(m, named, named')
    ensures RelOutcome(m, CallWith(c, s, f, positional, named), CallWith(c', s', f', positional', named'))
    decreases LoopLeft(c, s), DepthLeft(c, s), 1, ValuesSize(positional) + FieldsSize(named), 2
  {
    hide BelowTopSame, Hir.IsNormal, EvalArguments, Apply, Rel, RelConfig, RelState, RelList, RelFields, RelListResult, RelOutcome;
    ArgumentsRelated(m, c, c', s, s', positional, positional', named, named');
    var (t, args) := EvalArguments(c, s, positional, named);
    var (t', args') := EvalArguments(c', s', positional', named');
    ApplyRelated(m, c, c', t, t', f, f', args, args');
  }

  lemma {:induction false} ApplyRelated(m: Mode, c: Config, c': Config, s: State, s': State, f: Normal, f': Normal,
                                        args: ListResult, args': ListResult)
    requires RelConfig(m, c, c') && RelState(m, s, s') && Rel(m, f, f') && RelListResult(m, args, args')
    ensures RelOutcome(m, Apply(c, s, f, args), Apply(c', s', f', args'))
    decreases LoopLeft(c, s), DepthLeft(c, s), 0, 0, 1
  {
    hide BelowTopSame, Hir.IsNormal, EvalFunction, Rel, RelError, RelConfig, RelState, RelList;
    if args.AllOk? && f.FunctionSymbol? {
      SimpleRelated(m, f, f');
      FunctionRelated(m, c, c', s, s', f.func, args.values, args'.values);
    } else {
      NothingApplied(m, c, c', s, s', f, f', args, args');
    }
  }

  lemma {:induction false} NothingApplied(m: Mode, c: Config, c': Config, s: State, s': State, f: Normal, f': Normal,
                                          args: ListResult, args': ListResult)
    requires RelState(m, s, s') && Rel(m, f, f') && RelListResult(m, args, args')
    requires args.ListErr? || !f.FunctionSymbol?
    ensures RelOutcome(m, Apply(c, s, f, args), Apply(c', s', f', args'))
  {
    hide BelowTopSame, Hir.IsNormal, EvalFunction, Rel, RelError, RelState, RelList;
    SimpleRelated(m, f, f');
    PlainErrorsRelated(m);
  }

  lemma {:induction false} FunctionRelated(m: Mode, c: Config, c': Config, s: State, s': State,
                                           name: Name, args: seq<Normal>, args': seq<Normal>)
    requires RelConfig(m, c, c') && RelState(m, s, s') && RelList(m, args, args')
    ensures RelOutcome(m, EvalFunction(c, s, name, args), EvalFunction(c', s', name, args'))
    decreases LoopLeft(c, s), DepthLeft(c, s), 0, 0, 0
  {
    hide BelowTopSame, Eval, EvalElements, Rel;
    var f, f' := FunctionNamed(c, name), FunctionNamed(c', name);
    assert RelFunction(m, f, f');
    if s.callDepth < c.callDepthLimit && !(f.isUnsafe && s.safety.Safe?) && f.body.Some? {
      BindParamsRelated(m, f.params, args, args');
      var frame, frame' := Frame(map[], BindParams(f.params, args)), Frame(map[], BindParams(f'.params, args'));
      assert RelFrame(m, frame, frame');
      var inner := s.(callDepth := s.callDepth + 1, frames := s.frames + [frame]);
      var inner' := s'.(callDepth := s'.callDepth + 1, frames := s'.frames + [frame']);
      assert RelState(m, inner, inner');
      BodyRelated(m, c, c', inner, inner', f.body.value, f'.body.value);
    }
  }

  lemma {:induction false} BodyRelated(m: Mode, c: Config, c': Config, s: State, s': State, b: seq<Element>, b': seq<Element>)
    requires RelConfig(m, c, c') && RelState(m, s, s') && RelBody(m, b, b')
    ensures var (t, r), (t', r') := EvalElements(c, s, b, Unit), EvalElements(c', s', b', Unit);
      RelOutcome(m, (t, CatchReturn(r)), (t', CatchReturn(r')))
    decreases LoopLeft(c, s), DepthLeft(c, s), 2, 0, 0
  {
    hide BelowTopSame, Eval, EvalElements, Rel, RelConfig, RelState, RelElements;
    UnitRelated(m);
    if RelElements(m, b, b') {
      ElementsRelated(m, c, c', s, s', b, b', Unit, Unit);
    } else {
      var returnsUnit := !(EnsureReturn(b, false).Some? && RelElements(m, EnsureReturn(b, false).value, b'));
      var completed := EnsureReturn(b, returnsUnit).value;
      InsertedReturnIsTransparent(c, s, b, returnsUnit, Unit);
      ElementsRelated(m, c, c', s, s', completed, b', Unit, Unit);
    }
  }

  lemma {:induction false} WhileRelated(m: Mode, c: Config, c': Config, s: State, s': State,
                                        e: Value, e': Value, b: Block, b': Block)
    requires RelConfig(m, c, c') && RelState(m, s, s') && Rel(m, e, e') && RelBlock(m, b, b')
    ensures RelOutcome(m, EvalWhile(c, s, e, b), EvalWhile(c', s', e', b'))
    decreases LoopLeft(c, s), DepthLeft(c, s), 1,
              if s.loopCount >= c.loopLimit then 0 else 1 + Size(e) + BlockSize(b), 1
  {
    hide BelowTopSame, Hir.IsNormal, Eval, WhileWith, Rel, RelError, RelBlock, RelConfig, RelState;
    PlainErrorsRelated(m);
    SameLimits(m, c, c');
    LoopStepRelated(m, s, s');
    if s.loopCount < c.loopLimit {
      EvalRelated(m, c, c', s, s', e, e');
      var (t, v) := Eval(c, s, e);
      var (t', v') := Eval(c', s', e');
      if v.Ok? {
        WhileWithRelated(m, c, c', t, t', v.value, v'.value, e, e', b, b');
      }
    }
  }

  lemma {:induction false} WhileWithRelated(m: Mode, c: Config, c': Config, s: State, s': State, v: Normal, v': Normal,
                                            e: Value, e': Value, b: Block, b': Block)
    requires RelConfig(m, c, c') && RelState(m, s, s') && Rel(m, v, v') && Rel(m, e, e') && RelBlock(m, b, b')
    ensures RelOutcome(m, WhileWith(c, s, v, e, b), WhileWith(c', s', v', e', b'))
    decreases LoopLeft(c, s), DepthLeft(c, s), 1, 1 + BlockSize(b), 0
  {
    hide BelowTopSame, Hir.IsNormal, EvalWhile, EvalIteration, Rel, RelError, RelBlock, RelConfig, RelState;
    UnitRelated(m);
    PlainErrorsRelated(m);
    SimpleRelated(m, v, v');
    if v.Bool? && v.b {
      IterationRelated(m, c, c', s, s', b, b');
      var (t, step) := EvalIteration(c, s, b);
      var (t', step') := EvalIteration(c', s', b');
      if step.GoOn? {
        WhileRelated(m, c, c', t, t', e, e', b, b');
      }
    }
  }

  predicate RelStep(m: Mode, a: LoopStep, b: LoopStep) {
    if a.GoOn? then b.GoOn? else b.Stop? && RelResult(m, a.result, b.result)
  }

  /** One pass through a loop body: both loops go on, or both stop with related results. */
  lemma {:induction false} IterationRelated(m: Mode, c: Config, c': Config, s: State, s': State, b: Block, b': Block)
    requires RelConfig(m, c, c') && RelState(m, s, s') && RelBlock(m, b, b')
    ensures var (t, step), (t', step') := EvalIteration(c, s, b), EvalIteration(c', s', b');
      RelState(m, t, t') && RelStep(m, step, step')
    decreases LoopLeft(c, s), DepthLeft(c, s), 1, BlockSize(b), 1
  {
    hide BelowTopSame, EvalBlock, Rel, RelBlock, RelConfig, RelState;
    UnitRelated(m);
    LoopStepRelated(m, s, s');
    BlockRelated(m, c, c', s.(loopCount := s.loopCount + 1), s'.(loopCount := s'.loopCount + 1), b, b');
  }

  lemma {:induction false} LoopRelated(m: Mode, c: Config, c': Config, s: State, s': State, b: Block, b': Block)
    requires RelConfig(m, c, c') && RelState(m, s, s') && RelBlock(m, b, b')
    ensures RelOutcome(m, EvalLoop(c, s, b), EvalLoop(c', s', b'))
    decreases LoopLeft(c, s), DepthLeft(c, s), 1, 1 + BlockSize(b), 0
  {
    hide BelowTopSame, RelError, EvalIteration, Rel, RelBlock, RelConfig, RelState;
    PlainErrorsRelated(m);
    SameLimits(m, c, c');
    LoopStepRelated(m, s, s');
    if s.loopCount < c.loopLimit {
      IterationRelated(m, c, c', s, s', b, b');
      var (u, step) := EvalIteration(c, s, b);
      var (u', step') := EvalIteration(c', s', b');
      if step.GoOn? {
        LoopRelated(m, c, c', u, u', b, b');
      }
    }
  }

  lemma {:induction false} BlockRelated(m: Mode, c: Config, c': Config, s: State, s': State, b: Block, b': Block)
    requires RelConfig(m, c, c') && RelState(m, s, s') && RelBlock(m, b, b')
    ensures RelOutcome(m, EvalBlock(c, s, b), EvalBlock(c', s', b'))
    decreases LoopLeft(c, s), DepthLeft(c, s), 1, BlockSize(b), 0
  {
    hide BelowTopSame, RelError, Eval, EvalElements, Rel, RelConfig, RelFrames, RelElements;
    UnitRelated(m);
    ElementsRelated(m, c, c', s.(safety := b.safety), s'.(safety := b'.safety), b.elements, b'.elements, Unit, Unit);
  }

  lemma {:induction false} ElementsRelated(m: Mode, c: Config, c': Config, s: State, s': State,
                                           es: seq<Element>, es': seq<Element>, last: Normal, last': Normal)
    requires RelConfig(m, c, c') && RelState(m, s, s') && RelElements(m, es, es') && Rel(m, last, last')
    ensures RelOutcome(m, EvalElements(c, s, es, last), EvalElements(c', s', es', last'))
    decreases LoopLeft(c, s), DepthLeft(c, s), 1, ElementsSize(es), 0
  {
    hide BelowTopSame, RelError, Eval, EvalElement, Rel, RelConfig, RelState, RelElement;
    if es != [] {
      ElementRelated(m, c, c', s, s', es[0], es'[0]);
      var (t, v) := EvalElement(c, s, es[0]);
      var (t', v') := EvalElement(c', s', es'[0]);
      if v.Ok? {
        ElementsRelated(m, c, c', t, t', es[1..], es'[1..], v.value, v'.value);
      }
    }
  }

  lemma {:induction false} ElementRelated(m: Mode, c: Config, c': Config, s: State, s': State, e: Element, e': Element)
    requires RelConfig(m, c, c') && RelState(m, s, s') && RelElement(m, e, e')
    ensures RelOutcome(m, EvalElement(c, s, e), EvalElement(c', s', e'))
    decreases LoopLeft(c, s), DepthLeft(c, s), 1, ElementSize(e), 0
  {
    hide BelowTopSame, RelError, Eval, Rel, RelConfig, RelState;
    UnitRelated(m);
    match e
    case Expr(value) => EvalRelated(m, c, c', s, s', value, e'.value);
    case Local(x, None) => BindTopRelated(m, s, s', x, Unit, Unit);
    case Local(x, Some(init)) =>
      EvalRelated(m, c, c', s, s', init, e'.initializer.value);
      var (t, v) := Eval(c, s, init);
      var (t', v') := Eval(c', s', e'.initializer.value);
      if v.Ok? {
        BindTopRelated(m, t, t', x, v.value, v'.value);
      }
  }
}
