/** Results do not depend on which integer type the solver has already given a literal.

    The evaluator may meet the same integer as an untyped literal or as any machine kind, depending on which
    function bodies were solved first. This file relates two programs that differ only in such kinds (and in
    inserted returns) and shows that evaluation keeps them related. */
module Retyping {
  import opened FixedWidth
  import L = Literals
  import opened Hir
  import opened Evaluation
  import opened ReturnInsertion

  /** How closely integers of related programs agree.
      - Exact: equal, kind included.
      - SameImage: equal as 128-bit words; programs so related may not index.
      - SameImageAndIndexing: also both or neither of a kind that can index. */
  datatype Mode = Exact | SameImage | SameImageAndIndexing

  predicate IsIntegerLiteral(v: Value) {
    v.Int? || v.InferredInteger?
  }

  /** Untyped and 128-bit integers are rejected as indices. */
  predicate KindIndexes(v: Value) {
    v.Int? && !v.i.kind.I128? && !v.i.kind.U128?
  }

  predicate RelInteger(m: Mode, a: Value, b: Value)
    requires IsIntegerLiteral(a)
  {
    match m
    case Exact => a == b
    case SameImage => IsIntegerLiteral(b) && IntegerWord(a) == IntegerWord(b)
    case SameImageAndIndexing =>
      IsIntegerLiteral(b) && IntegerWord(a) == IntegerWord(b) && (KindIndexes(a) <==> KindIndexes(b))
  }

  /** A form that is never evaluated may differ in any way, unless everything is to be equal. */
  predicate RelUnread(m: Mode, a: Value, b: Value) {
    m.Exact? ==> a == b
  }

  /** Of a place that is assigned to, only the local variable it may be is looked at. */
  predicate RelPlace(m: Mode, a: Value, b: Value) {
    && RelUnread(m, a, b)
    && (if a.LocalVariableSymbol? then a == b else !b.LocalVariableSymbol?)
  }

  predicate Rel(m: Mode, a: Value, b: Value)
    decreases a, 0
  {
    match a
    case Int(_) => RelInteger(m, a, b)
    case InferredInteger(_) => RelInteger(m, a, b)
    case StructObject(def, fields) => b.StructObject? && b.structDef == def && RelFields(m, fields, b.fields)
    case EnumVariant(def, variant, payload) =>
      b.EnumVariant? && b.enumDef == def && b.variant == variant && Rel(m, payload, b.payload)
    case List(elements) => b.List? && RelList(m, elements, b.elements)
    case Tuple(elements) => b.Tuple? && RelList(m, elements, b.elements)
    case Binary(left, op, right) => b.Binary? && b.op == op && Rel(m, left, b.left) && Rel(m, right, b.right)
    case Unary(op, operand) => b.Unary? && b.uop == op && Rel(m, operand, b.operand)
    case Cast(expr, target) => b.Cast? && b.target == target && Rel(m, expr, b.expr)
    case If(condition, thenBlock, elseBlock) =>
      && b.If? && Rel(m, condition, b.condition) && RelBlock(m, thenBlock, b.thenBlock)
      && (elseBlock.Some? <==> b.elseBlock.Some?)
      && (elseBlock.Some? ==> RelBlock(m, elseBlock.value, b.elseBlock.value))
    case While(condition, body) => b.While? && Rel(m, condition, b.condition) && RelBlock(m, body, b.body)
    case Loop(body) => b.Loop? && RelBlock(m, body, b.body)
    case Return(expr) => b.Return? && Rel(m, expr, b.expr)
    case BlockExpr(block) => b.BlockExpr? && RelBlock(m, block, b.block)
    case FieldAccess(expr, x) => b.FieldAccess? && b.fieldName == x && Rel(m, expr, b.expr)
    case IndexAccess(collection, index) =>
      !m.SameImage? && b.IndexAccess? && Rel(m, collection, b.collection) && Rel(m, index, b.index)
    case Assign(place, rhs) => b.Assign? && RelPlace(m, place, b.place) && Rel(m, rhs, b.rhs)
    case Borrow(place) => b.Borrow? && RelUnread(m, place, b.place)
    case Deref(place) => b.Deref? && RelUnread(m, place, b.place)
    case MethodCall(receiver, x) => b.MethodCall? && b.methodName == x && RelUnread(m, receiver, b.receiver)
    case Call(callee, positional, named) =>
      b.Call? && Rel(m, callee, b.callee) && RelList(m, positional, b.positional) && RelFields(m, named, b.named)
    case _ => a == b
  }

  predicate RelList(m: Mode, a: seq<Value>, b: seq<Value>)
    decreases a, 0
  {
    |a| == |b| && forall i | 0 <= i < |a| :: Rel(m, a[i], b[i])
  }

  predicate RelFields(m: Mode, a: seq<Field>, b: seq<Field>)
    decreases a, 0
  {
    |a| == |b| && forall i | 0 <= i < |a| :: a[i].name == b[i].name && Rel(m, a[i].value, b[i].value)
  }

  predicate RelBlock(m: Mode, a: Block, b: Block)
    decreases a, 1
  {
    a.safety == b.safety && RelElements(m, a.elements, b.elements)
  }

  predicate RelElements(m: Mode, a: seq<Element>, b: seq<Element>)
    decreases a, 0
  {
    |a| == |b| && forall i | 0 <= i < |a| :: RelElement(m, a[i], b[i])
  }

  predicate RelElement(m: Mode, a: Element, b: Element)
    decreases a, 0
  {
    match a
    case Expr(value) => b.Expr? && Rel(m, value, b.value)
    case Local(x, None) => b == a
    case Local(x, Some(init)) => b.Local? && b.name == x && b.initializer.Some? && Rel(m, init, b.initializer.value)
  }

  /** A related body, or a related body completed with a return. */
  predicate RelBody(m: Mode, a: seq<Element>, b: seq<Element>) {
    || RelElements(m, a, b)
    || (EnsureReturn(a, true).Some? && RelElements(m, EnsureReturn(a, true).value, b))
    || (EnsureReturn(a, false).Some? && RelElements(m, EnsureReturn(a, false).value, b))
  }

  predicate RelFunction(m: Mode, a: Function, b: Function) {
    && a.params == b.params && a.isUnsafe == b.isUnsafe
    && (a.body.Some? <==> b.body.Some?)
    && (a.body.Some? ==> RelBody(m, a.body.value, b.body.value))
  }

  predicate RelConfig(m: Mode, a: Config, b: Config) {
    && a.pointerBits == b.pointerBits && a.loopLimit == b.loopLimit && a.callDepthLimit == b.callDepthLimit
    && a.functions.Keys == b.functions.Keys
    && forall f | f in a.functions :: RelFunction(m, a.functions[f], b.functions[f])
  }

  predicate RelBindings(m: Mode, a: map<Name, Normal>, b: map<Name, Normal>) {
    a.Keys == b.Keys && forall x | x in a :: Rel(m, a[x], b[x])
  }

  predicate RelFrame(m: Mode, a: Frame, b: Frame) {
    RelBindings(m, a.locals, b.locals) && RelBindings(m, a.params, b.params)
  }

  predicate RelFrames(m: Mode, a: seq<Frame>, b: seq<Frame>) {
    |a| == |b| && forall i | 0 <= i < |a| :: RelFrame(m, a[i], b[i])
  }

  predicate RelState(m: Mode, a: State, b: State) {
    && a.loopCount == b.loopCount && a.callDepth == b.callDepth && a.safety == b.safety
    && RelFrames(m, a.frames, b.frames)
  }

  predicate RelError(m: Mode, a: EvalError, b: EvalError) {
    if a.Returned? then b.Returned? && Rel(m, a.value, b.value) else b == a
  }

  predicate RelResult(m: Mode, a: Result, b: Result) {
    if a.Ok? then b.Ok? && Rel(m, a.value, b.value) else b.Err? && RelError(m, a.error, b.error)
  }

  predicate RelListResult(m: Mode, a: ListResult, b: ListResult) {
    if a.AllOk? then b.AllOk? && RelList(m, a.values, b.values) else b.ListErr? && RelError(m, a.error, b.error)
  }

  predicate RelOutcome(m: Mode, a: (State, Result), b: (State, Result)) {
    RelState(m, a.0, b.0) && RelResult(m, a.1, b.1)
  }

  // ---------------------------------------------------------------------------
  // Operators
  // ---------------------------------------------------------------------------

  /** Related operands become the same literal, so every operator gives the very same result. */
  lemma {:induction false} SameLit(m: Mode, a: Value, b: Value)
    requires Rel(m, a, b)
    ensures TryToLit(a) == TryToLit(b)
  {
    hide NormalizeInteger, RelList, RelFields, RelBlock, Image, Fits;
  }

  lemma {:induction false} LiteralsRelateToThemselves(m: Mode, l: L.LitResult)
    ensures RelResult(m, FromLitResult(l), FromLitResult(l))
  {
  }

  lemma {:induction false} SameBinary(m: Mode, op: L.BinaryOp, a: Value, a': Value, b: Value, b': Value)
    requires Rel(m, a, a') && Rel(m, b, b') && !op.LogicAnd? && !op.LogicOr?
    ensures BinaryResult(op, a, b) == BinaryResult(op, a', b')
    ensures RelResult(m, BinaryResult(op, a, b), BinaryResult(op, a, b))
  {
    hide L.Binary, Rel, RelResult, TryToLit, FromLitResult;
    SameLit(m, a, a');
    SameLit(m, b, b');
    BinaryRelatesToItself(m, op, a, b);
  }

  lemma {:induction false} BinaryRelatesToItself(m: Mode, op: L.BinaryOp, a: Value, b: Value)
    requires !op.LogicAnd? && !op.LogicOr?
    ensures RelResult(m, BinaryResult(op, a, b), BinaryResult(op, a, b))
  {
    hide L.Binary, Rel, TryToLit, FromLitResult;
    var x, y := TryToLit(a), TryToLit(b);
    if x.Some? && y.Some? {
      LiteralsRelateToThemselves(m, L.Binary(op, x.value, y.value));
    } else {
      assert BinaryResult(op, a, b) == Err(TypeError);
    }
  }

  lemma {:induction false} SameUnary(m: Mode, op: L.UnaryOp, a: Value, a': Value)
    requires Rel(m, a, a')
    ensures UnaryResult(op, a) == UnaryResult(op, a')
    ensures RelResult(m, UnaryResult(op, a), UnaryResult(op, a))
  {
    hide L.Unary, Rel, RelResult, TryToLit, FromLitResult;
    SameLit(m, a, a');
    UnaryRelatesToItself(m, op, a);
  }

  lemma {:induction false} UnaryRelatesToItself(m: Mode, op: L.UnaryOp, a: Value)
    ensures RelResult(m, UnaryResult(op, a), UnaryResult(op, a))
  {
    hide L.Unary, Rel, TryToLit, FromLitResult;
    var x := TryToLit(a);
    if x.Some? {
      LiteralsRelateToThemselves(m, L.Unary(op, x.value));
    } else {
      assert UnaryResult(op, a) == Err(TypeError);
    }
  }

  /** A cast truncates, and truncation only sees the 128-bit image. */
  lemma {:induction false} SameCast(m: Mode, c: Config, c': Config, a: Value, a': Value, target: CastTarget)
    requires Rel(m, a, a') && c.pointerBits == c'.pointerBits
    ensures CastResult(c, a, target) == CastResult(c', a', target)
    ensures RelResult(m, CastResult(c, a, target), CastResult(c, a, target))
  {
    if IsIntegerLiteral(a) {
      var x, x' := ToBridge(a).value.v, ToBridge(a').value.v;
      assert Image(x) == IntegerWord(a) == IntegerWord(a') == Image(x') by {
        ImageOfWord(a);
        ImageOfWord(a');
      }
      if target.ToInt? {
        WrapSeesImage(target.kind, x, x');
      } else if target.ToUSize? {
        WrapSeesImage(USize(c.pointerBits), x, x');
      }
    }
  }

  lemma {:induction false} ImageOfWord(v: Value)
    requires IsIntegerLiteral(v)
    ensures Image(ToBridge(v).value.v) == IntegerWord(v)
  {
    if v.InferredInteger? {
      ModUnique(v.word, TWO_TO_128, 0, v.word);
    }
  }

  // ---------------------------------------------------------------------------
  // Frames, fields and elements
  // ---------------------------------------------------------------------------

  lemma {:induction false} SameBinding(m: Mode, f: Frame, f': Frame, x: Name)
    requires RelFrame(m, f, f')
    ensures var b, b' := GetBinding(f, x), GetBinding(f', x);
      (b.Some? <==> b'.Some?) && (b.Some? ==> Rel(m, b.value, b'.value))
  {
    hide Rel;
  }

  lemma {:induction false} SameLookup(m: Mode, fs: seq<Frame>, fs': seq<Frame>, x: Name)
    requires RelFrames(m, fs, fs')
    ensures var b, b' := LookupBinding(fs, x), LookupBinding(fs', x);
      (b.Some? <==> b'.Some?) && (b.Some? ==> Rel(m, b.value, b'.value))
  {
    hide Rel, RelFrame;
    if fs != [] {
      var n := |fs| - 1;
      SameBinding(m, fs[n], fs'[n], x);
      SameLookup(m, fs[..n], fs'[..n], x);
    }
  }

  lemma {:induction false} BindTopRelated(m: Mode, s: State, s': State, x: Name, v: Normal, v': Normal)
    requires RelState(m, s, s') && Rel(m, v, v')
    ensures RelState(m, BindTop(s, x, v), BindTop(s', x, v'))
  {
    hide Rel;
    if s.frames != [] {
      var n := |s.frames| - 1;
      var f, f' := SetBinding(s.frames[n], x, v), SetBinding(s'.frames[n], x, v');
      assert RelFrame(m, f, f') by {
        assert RelFrame(m, s.frames[n], s'.frames[n]);
      }
    }
  }

  lemma {:induction false} BindParamsRelated(m: Mode, params: seq<Name>, args: seq<Normal>, args': seq<Normal>)
    requires RelList(m, args, args')
    ensures RelBindings(m, BindParams(params, args), BindParams(params, args'))
  {
    if params != [] {
      BindParamsRelated(m, params[..|params| - 1], args, args');
    }
  }

  lemma {:induction false} SameField(m: Mode, v: Normal, v': Normal, x: Name)
    requires Rel(m, v, v')
    ensures RelResult(m, FieldOf(v, x), FieldOf(v', x))
    ensures FieldOf(v, x).Err? ==> FieldOf(v', x) == FieldOf(v, x)
  {
    if v.StructObject? {
      SameFoundField(m, v.fields, v'.fields, x);
    }
  }

  lemma {:induction false} SameFoundField(m: Mode, fs: seq<Field>, fs': seq<Field>, x: Name)
    requires RelFields(m, fs, fs')
    ensures var b, b' := FindField(fs, x), FindField(fs', x);
      (b.Some? <==> b'.Some?) && (b.Some? ==> Rel(m, b.value, b'.value))
  {
    hide Rel;
    if fs != [] {
      SameFoundField(m, fs[1..], fs'[1..], x);
    }
  }

  /** Among related integers, kinds that can index denote the same position. */
  lemma {:induction false} SameIndex(m: Mode, i: Value, i': Value)
    requires Rel(m, i, i') && !m.SameImage?
    ensures IndexOf(i) == IndexOf(i')
  {
    if i.Int? && m.SameImageAndIndexing? && KindIndexes(i) {
      var v, v' := i.i.value, i'.i.value;
      assert -0x8000_0000_0000_0000 <= v < 0x1_0000_0000_0000_0000;
      assert -0x8000_0000_0000_0000 <= v' < 0x1_0000_0000_0000_0000;
      SmallImage(v);
      SmallImage(v');
    }
  }

  lemma {:induction false} SmallImage(v: int)
    requires -0x8000_0000_0000_0000 <= v < 0x1_0000_0000_0000_0000
    ensures Image(v) == if v < 0 then v + TWO_TO_128 else v
  {
    if v < 0 {
      ModUnique(v, TWO_TO_128, -1, v + TWO_TO_128);
    } else {
      ModUnique(v, TWO_TO_128, 0, v);
    }
  }

  lemma {:induction false} SameElement(m: Mode, v: Normal, v': Normal, i: Normal, i': Normal)
    requires Rel(m, v, v') && Rel(m, i, i') && !m.SameImage?
    ensures RelResult(m, ElementAt(v, i), ElementAt(v', i'))
    ensures ElementAt(v, i).Err? ==> ElementAt(v', i') == ElementAt(v, i)
  {
    SameIndex(m, i, i');
  }

  lemma {:induction false} FieldValuesRelated(m: Mode, fs: seq<Field>, fs': seq<Field>)
    requires RelFields(m, fs, fs')
    ensures RelList(m, FieldValues(fs), FieldValues(fs'))
  {
    hide Rel;
  }

  lemma {:induction false} ComponentsRelated(m: Mode, e: Value, e': Value)
    requires Rel(m, e, e') && IsAggregate(e)
    ensures IsAggregate(e') && RelList(m, Components(e), Components(e'))
  {
    if e.StructObject? {
      FieldValuesRelated(m, e.fields, e'.fields);
    }
  }

  lemma {:induction false} RebuildRelated(m: Mode, e: Value, e': Value, vs: seq<Normal>, vs': seq<Normal>)
    requires Rel(m, e, e') && IsAggregate(e) && IsAggregate(e') && RelList(m, vs, vs')
    requires |vs| == |Components(e)| && |vs'| == |Components(e')|
    ensures Rel(m, Rebuild(e, vs), Rebuild(e', vs'))
  {
    if e.StructObject? {
      assert RelFields(m, WithValues(e.fields, vs), WithValues(e'.fields, vs'));
    }
  }
}
