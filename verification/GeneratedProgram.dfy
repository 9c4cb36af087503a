/** The syntax trees the program generator emits, and what it means for them to be well typed and well formed. */
module GeneratedProgram {
  import opened Wrappers
  import opened FixedWidth
  import opened Numerals
  import opened Text

  /** Named stands for every type the generator cannot construct a value of. */
  datatype Type =
    | BoolType
    | IntType(kind: IntKind)
    | Float32Type
    | Float64Type
    | TupleType(elements: seq<Type>)
    | NamedType(path: string)

  /** A fixed name; a name numbered by position; a generated name with the value of the name counter. */
  datatype Name =
    | Fixed(text: string)
    | Indexed(prefix: string, index: nat)
    | Unique(prefix: string, counter: nat)

  datatype UnaryOp = Plus | Minus | Not
  datatype BinaryOp =
    | Add | Sub | Mul | Div | Mod | Shl | Shr
    | LogicAnd | LogicOr | Lt | Gt | Le | Ge | Eq

  datatype Expr =
    | Boolean(value: bool)
    | Integer(magnitude: nat)
    | Float(approximation: real)
    | Cast(literal: Expr, to: Type)
    | Tuple(elements: seq<Expr>)
    | Unary(unaryOp: UnaryOp, operand: Expr)
    | Binary(op: BinaryOp, left: Expr, right: Expr)
    | Parentheses(inner: Expr)
    | If(condition: Expr, thenBlock: Block, elseBlock: Block)
    | While(condition: Expr, body: Block)
    | Return(result: Option<Expr>)

  datatype Block = Block(elements: seq<BlockItem>)
  datatype BlockItem =
    | Statement(expr: Expr)
    | Variable(name: Name, ty: Type, initializer: Expr)

  datatype Param = Param(name: Name, ty: Type)
  datatype Variant = Variant(name: Name, payload: Option<Type>)

  datatype Item =
    | Function(name: Name, params: seq<Param>, returnType: Option<Type>, body: Block)
    | Struct(name: Name, fields: seq<Param>)
    | Enum(name: Name, variants: seq<Variant>)
    | Const(name: Name, ty: Type, initializer: Expr)
    | TypeAlias(name: Name, ty: Type)
    | Module(name: Name, items: seq<Item>)

  // ---------------------------------------------------------------------------
  // Types
  // ---------------------------------------------------------------------------

  const UNIT: Type := TupleType([])
  const INT32: Type := IntType(I32)

  predicate IsUnit(t: Type) {
    t.TupleType? && t.elements == []
  }

  predicate IsFloat(t: Type) {
    t.Float32Type? || t.Float64Type?
  }

  predicate IsSigned(t: Type) {
    t.IntType? && Signed(t.kind)
  }

  /** The largest magnitude a literal of an integral type may have. */
  function MagnitudeMax(t: Type): Option<nat> {
    if !t.IntType? then None
    else
      match t.kind
      case I8 => Some(0x7F)
      case I16 => Some(0x7FFF)
      case I32 => Some(0x7FFF_FFFF)
      case I64 => Some(0x7FFF_FFFF_FFFF_FFFF)
      case I128 => Some(0x7FFF_FFFF_FFFF_FFFF_FFFF_FFFF_FFFF_FFFF)
      case U8 => Some(0xFF)
      case U16 => Some(0xFFFF)
      case U32 => Some(0xFFFF_FFFF)
      case U64 => Some(0xFFFF_FFFF_FFFF_FFFF)
      case U128 => Some(0xFFFF_FFFF_FFFF_FFFF_FFFF_FFFF_FFFF_FFFF)
      case USize(_) => Some(0xFFFF_FFFF_FFFF_FFFF)
  }

  /** Every literal up to the maximum fits the type, and the next one does not. */
  lemma {:induction false} MagnitudeMaxIsExact(t: Type, v: nat)
    requires t.IntType?
    ensures Fits(t.kind, v) <==> v <= MagnitudeMax(t).value
  {
    match t.kind
    case I128 =>
    case _ =>
  }

  function TupleFields(t: Type): seq<Type> {
    if t.TupleType? then t.elements else []
  }

  /** Types a value can be written for. */
  predicate Constructible(t: Type) {
    match t
    case NamedType(_) => false
    case TupleType(elements) => forall i | 0 <= i < |elements| :: Constructible(elements[i])
    case _ => true
  }

  /** Types the generator declares things with: scalars, and tuples of two to four such types, nested at most `depth` deep. */
  predicate Concrete(t: Type, depth: nat) {
    match t
    case NamedType(_) => false
    case TupleType(elements) =>
      depth > 0 && 2 <= |elements| <= 4 && forall i | 0 <= i < |elements| :: Concrete(elements[i], depth - 1)
    case _ => true
  }

  lemma {:induction false} ConcreteIsConstructible(t: Type, depth: nat)
    requires Concrete(t, depth)
    ensures Constructible(t) && !IsUnit(t)
  {
    if t.TupleType? {
      forall i | 0 <= i < |t.elements| ensures Constructible(t.elements[i]) {
        ConcreteIsConstructible(t.elements[i], depth - 1);
      }
    }
  }

  // ---------------------------------------------------------------------------
  // The type checker
  // ---------------------------------------------------------------------------

  function UnaryType(op: UnaryOp, t: Type): Option<Type> {
    match op
    case Not => if t.BoolType? then Some(t) else None
    case Minus => if IsSigned(t) || IsFloat(t) then Some(t) else None
    case Plus => if t.IntType? || IsFloat(t) then Some(t) else None
  }

  function BinaryType(op: BinaryOp, t: Type): Option<Type> {
    match op
    case LogicAnd => if t.BoolType? then Some(t) else None
    case LogicOr => if t.BoolType? then Some(t) else None
    case Add => if t.IntType? || IsFloat(t) then Some(t) else None
    case Sub => if t.IntType? || IsFloat(t) then Some(t) else None
    case Mul => if t.IntType? || IsFloat(t) then Some(t) else None
    case Div => if t.IntType? || IsFloat(t) then Some(t) else None
    case Mod => if t.IntType? then Some(t) else None
    case Shl => if t.IntType? then Some(t) else None
    case Shr => if t.IntType? then Some(t) else None
    case _ => if t.IntType? then Some(BoolType) else None
  }

  /** The type of a value expression. Control flow has no type here, so no typed expression contains any; a bare
      integer or float literal must be cast, and an integer literal must fit the type it is cast to; an operand of a
      binary operator must not be a bare binary expression, which would print ambiguously. */
  function TypeOf(e: Expr): Option<Type> {
    match e
    case Boolean(_) => Some(BoolType)
    case Cast(Integer(v), to) => if to.IntType? && Fits(to.kind, v) then Some(to) else None
    case Cast(Float(_), to) => if IsFloat(to) then Some(to) else None
    case Tuple(elements) => var ts := TypesOf(elements); if ts.Some? then Some(TupleType(ts.value)) else None
    case Unary(op, operand) => var t := TypeOf(operand); if t.Some? then UnaryType(op, t.value) else None
    case Binary(op, left, right) =>
      var t := TypeOf(left);
      if t.Some? && TypeOf(right) == t && !left.Binary? && !right.Binary? then BinaryType(op, t.value) else None
    case Parentheses(inner) => TypeOf(inner)
    case _ => None
  }

  function TypesOf(es: seq<Expr>): Option<seq<Type>> {
    if es == [] then Some([])
    else
      var head, tail := TypeOf(es[0]), TypesOf(es[1..]);
      if head.Some? && tail.Some? then Some([head.value] + tail.value) else None
  }

  predicate HasType(e: Expr, t: Type) {
    TypeOf(e) == Some(t)
  }

  lemma {:induction false} TypesOfElements(es: seq<Expr>, ts: seq<Type>)
    requires |es| == |ts| && forall i | 0 <= i < |es| :: HasType(es[i], ts[i])
    ensures TypesOf(es) == Some(ts)
  {
    if es != [] {
      TypesOfElements(es[1..], ts[1..]);
      assert ts == [ts[0]] + ts[1..];
    }
  }

  /** Only constructible types have values. */
  lemma {:induction false} TypedIsConstructible(e: Expr, t: Type)
    requires HasType(e, t)
    ensures Constructible(t)
    decreases e
  {
    match e
    case Tuple(elements) => TypedElementsAreConstructible(elements, t.elements);
    case Unary(_, operand) => TypedIsConstructible(operand, TypeOf(operand).value);
    case Binary(_, left, _) => TypedIsConstructible(left, TypeOf(left).value);
    case Parentheses(inner) => TypedIsConstructible(inner, t);
    case _ =>
  }

  lemma {:induction false} TypedElementsAreConstructible(es: seq<Expr>, ts: seq<Type>)
    requires TypesOf(es) == Some(ts)
    ensures forall i | 0 <= i < |ts| :: Constructible(ts[i])
    decreases es
  {
    if es != [] {
      TypedIsConstructible(es[0], ts[0]);
      TypedElementsAreConstructible(es[1..], ts[1..]);
    }
  }

  /** No block, branch, loop or return anywhere inside. */
  predicate ControlFree(e: Expr) {
    match e
    case Cast(literal, _) => ControlFree(literal)
    case Tuple(elements) => forall i | 0 <= i < |elements| :: ControlFree(elements[i])
    case Unary(_, operand) => ControlFree(operand)
    case Binary(_, left, right) => ControlFree(left) && ControlFree(right)
    case Parentheses(inner) => ControlFree(inner)
    case If(_, _, _) => false
    case While(_, _) => false
    case Return(_) => false
    case _ => true
  }

  /** Control flow never sits in value position. */
  lemma {:induction false} TypedIsControlFree(e: Expr)
    requires TypeOf(e).Some?
    ensures ControlFree(e)
    decreases e
  {
    match e
    case Tuple(elements) => TypedElementsAreControlFree(elements);
    case Unary(_, operand) => TypedIsControlFree(operand);
    case Binary(_, left, right) =>
      TypedIsControlFree(left);
      TypedIsControlFree(right);
    case Parentheses(inner) => TypedIsControlFree(inner);
    case _ =>
  }

  lemma {:induction false} TypedElementsAreControlFree(es: seq<Expr>)
    requires TypesOf(es).Some?
    ensures forall i | 0 <= i < |es| :: ControlFree(es[i])
    decreases es
  {
    if es != [] {
      TypedIsControlFree(es[0]);
      TypedElementsAreControlFree(es[1..]);
    }
  }

  // ---------------------------------------------------------------------------
  // Statements, bodies and items
  // ---------------------------------------------------------------------------

  const MAX_TYPE_DEPTH: nat := 4
  const MAX_ITEM_DEPTH: nat := 3

  /** A declaration whose initialiser has the declared type, or a discarded value. */
  predicate PlainStatement(item: BlockItem) {
    match item
    case Variable(_, ty, initializer) => Concrete(ty, MAX_TYPE_DEPTH) && HasType(initializer, ty)
    case Statement(e) => TypeOf(e).Some?
  }

  predicate ShallowBlock(b: Block) {
    forall i | 0 <= i < |b.elements| :: PlainStatement(b.elements[i])
  }

  /** One level of branching or looping over plain statements, under a boolean condition. */
  predicate ControlStatement(item: BlockItem) {
    item.Statement? &&
    match item.expr
    case If(condition, thenBlock, elseBlock) =>
      HasType(condition, BoolType) && ShallowBlock(thenBlock) && ShallowBlock(elseBlock)
    case While(condition, body) => HasType(condition, BoolType) && ShallowBlock(body)
    case _ => false
  }

  predicate SafeStatement(item: BlockItem, allowControl: bool) {
    PlainStatement(item) || (allowControl && ControlStatement(item))
  }

  /** The final statement of a body: a return, with a value of the declared type unless that is unit. */
  predicate ReturnOf(item: BlockItem, t: Type) {
    item.Statement? && item.expr.Return?
    && if IsUnit(t) then item.expr.result.None? else item.expr.result.Some? && HasType(item.expr.result.value, t)
  }

  predicate FunctionBody(b: Block, t: Type) {
    var n := |b.elements|;
    n > 0 && ReturnOf(b.elements[n - 1], t) && forall i | 0 <= i < n - 1 :: SafeStatement(b.elements[i], true)
  }

  predicate Declarable(t: Type) {
    Concrete(t, MAX_TYPE_DEPTH)
  }

  predicate DeclarablePayload(payload: Option<Type>) {
    payload.Some? ==> Declarable(payload.value)
  }

  /** A well-formed item with at most `depth` modules around one another inside it. */
  predicate WellFormed(item: Item, depth: nat)
    decreases item
  {
    match item
    case Function(_, params, returnType, body) =>
      && (forall i | 0 <= i < |params| :: params[i].name == Indexed("a", i) && Declarable(params[i].ty))
      && (returnType.Some? ==> Declarable(returnType.value))
      && FunctionBody(body, if returnType.Some? then returnType.value else UNIT)
    case Struct(_, fields) =>
      && fields != []
      && forall i | 0 <= i < |fields| :: fields[i].name == Indexed("field", i) && Declarable(fields[i].ty)
    case Enum(_, variants) =>
      && |variants| >= 2
      && forall i | 0 <= i < |variants| :: variants[i].name == Indexed("Variant", i) && DeclarablePayload(variants[i].payload)
    case Const(_, ty, initializer) => Declarable(ty) && HasType(initializer, ty)
    case TypeAlias(_, ty) => Declarable(ty)
    case Module(_, items) => depth > 0 && forall i | 0 <= i < |items| :: WellFormed(items[i], depth - 1)
  }

  lemma {:induction false} WellFormedDeeper(item: Item, depth: nat, deeper: nat)
    requires WellFormed(item, depth) && depth <= deeper
    ensures WellFormed(item, deeper)
    decreases item
  {
    if item.Module? {
      forall i | 0 <= i < |item.items| ensures WellFormed(item.items[i], deeper - 1) {
        WellFormedDeeper(item.items[i], depth - 1, deeper - 1);
      }
    }
  }

  // ---------------------------------------------------------------------------
  // Generated names
  // ---------------------------------------------------------------------------

  function CounterOf(name: Name): seq<nat> {
    if name.Unique? then [name.counter] else []
  }

  /** The counters of all names in a block, in the order they were drawn. */
  function BlockCounters(b: Block): seq<nat> {
    ElementCounters(b.elements)
  }

  function ElementCounters(es: seq<BlockItem>): seq<nat> {
    if es == [] then [] else ElementCounters(es[..|es| - 1]) + StatementCounters(es[|es| - 1])
  }

  function StatementCounters(item: BlockItem): seq<nat> {
    match item
    case Variable(name, _, initializer) => ExprCounters(initializer) + CounterOf(name)
    case Statement(e) => ExprCounters(e)
  }

  function ExprCounters(e: Expr): seq<nat> {
    match e
    case If(_, thenBlock, elseBlock) => BlockCounters(thenBlock) + BlockCounters(elseBlock)
    case While(_, body) => BlockCounters(body)
    case _ => []
  }

  function ItemCounters(item: Item): seq<nat> {
    match item
    case Function(name, _, _, body) => CounterOf(name) + BlockCounters(body)
    case Struct(name, _) => CounterOf(name)
    case Enum(name, _) => CounterOf(name)
    case Const(name, _, _) => CounterOf(name)
    case TypeAlias(name, _) => CounterOf(name)
    case Module(name, items) => ItemsCounters(items) + CounterOf(name)
  }

  function ItemsCounters(items: seq<Item>): seq<nat> {
    if items == [] then [] else ItemsCounters(items[..|items| - 1]) + ItemCounters(items[|items| - 1])
  }

  lemma {:induction false} CountersAppend(es: seq<BlockItem>, extended: seq<BlockItem>)
    requires |extended| == |es| + 1 && extended[..|es|] == es
    ensures ElementCounters(extended) == ElementCounters(es) + StatementCounters(extended[|es|])
  {
  }

  lemma {:induction false} ItemsCountersAppend(items: seq<Item>, item: Item)
    ensures ItemsCounters(items + [item]) == ItemsCounters(items) + ItemCounters(item)
  {
    assert (items + [item])[..|items|] == items;
  }

  /** The counters from `from` up to `to`, each once. */
  function Interval(from: nat, to: nat): (s: seq<nat>)
    requires from <= to
    ensures |s| == to - from && forall i | 0 <= i < |s| :: s[i] == from + i
  {
    seq(to - from, i => from + i)
  }

  lemma {:induction false} IntervalsJoin(a: nat, b: nat, c: nat)
    requires a <= b <= c
    ensures Interval(a, b) + Interval(b, c) == Interval(a, c)
  {
  }

  function Characters(s: bytes): string {
    seq(|s|, i requires 0 <= i < |s| => s[i] as char)
  }

  function Numbered(prefix: string, n: nat): string {
    prefix + "_" + Characters(Decimal(n))
  }

  function Rendered(name: Name): string {
    match name
    case Fixed(text) => text
    case Indexed(prefix, index) => Numbered(prefix, index)
    case Unique(prefix, counter) => Numbered(prefix, counter)
  }

  lemma {:induction false} RenderedExample()
    ensures Rendered(Unique("fn", 12)) == "fn_12" && Rendered(Indexed("field", 0)) == "field_0"
  {
    assert Numeral(12, 10) == [1, 2];
    assert Characters(Decimal(12)) == "12" && Characters(Decimal(0)) == "0";
  }

  /** Names drawn at different counter values are different texts, whatever their prefixes: the digits after the last
      underscore give the counter back. */
  lemma {:induction false} NumberedTextsDiffer(p: string, a: nat, q: string, b: nat)
    ensures Numbered(p, a) == Numbered(q, b) <==> p == q && a == b
  {
    hide Decimal, ParseDecimal, Numbered, Characters;
    if Numbered(p, a) == Numbered(q, b) {
      NumberedParts(p, a);
      NumberedParts(q, b);
      SameSplit(Numbered(p, a), |p|, |q|);
      CharactersInjective(Decimal(a), Decimal(b));
      ParsePrinted(a, a + b);
      ParsePrinted(b, a + b);
    }
  }

  lemma {:induction false} NumberedParts(p: string, n: nat)
    ensures var s := Numbered(p, n);
      && |s| > |p| && s[|p|] == '_' && (forall k | |p| < k < |s| :: s[k] != '_')
      && s[..|p|] == p && s[|p| + 1..] == Characters(Decimal(n))
  {
    hide Numeral;
    var digits := Decimal(n);
    var s := Numbered(p, n);
    assert s[|p| + 1..] == Characters(digits);
    forall k | |p| < k < |s| ensures s[k] != '_' {
      assert s[k] == digits[k - |p| - 1] as char && IsDigit(digits[k - |p| - 1]);
    }
  }

  lemma {:induction false} CharactersInjective(s: bytes, t: bytes)
    requires Characters(s) == Characters(t)
    ensures s == t
  {
    assert |Characters(s)| == |Characters(t)|;
    forall i | 0 <= i < |s| ensures s[i] == t[i] {
      assert Characters(s)[i] == Characters(t)[i];
      assert s[i] as char as int == t[i] as char as int;
    }
  }

  lemma {:induction false} SameSplit(s: string, i: nat, j: nat)
    requires i < |s| && j < |s| && s[i] == '_' && s[j] == '_'
    requires forall k | i < k < |s| :: s[k] != '_'
    requires forall k | j < k < |s| :: s[k] != '_'
    ensures i == j
  {
  }

  // ---- the generated names of a program ----

  function GeneratedName(name: Name): seq<Name> {
    if name.Unique? then [name] else []
  }

  /** The generated names of a program in the order they were drawn. */
  function ItemNames(item: Item): seq<Name> {
    match item
    case Function(name, _, _, body) => GeneratedName(name) + BlockNames(body)
    case Struct(name, _) => GeneratedName(name)
    case Enum(name, _) => GeneratedName(name)
    case Const(name, _, _) => GeneratedName(name)
    case TypeAlias(name, _) => GeneratedName(name)
    case Module(name, items) => ItemsNames(items) + GeneratedName(name)
  }

  function ItemsNames(items: seq<Item>): seq<Name> {
    if items == [] then [] else ItemsNames(items[..|items| - 1]) + ItemNames(items[|items| - 1])
  }

  function BlockNames(b: Block): seq<Name> {
    ElementNames(b.elements)
  }

  function ElementNames(es: seq<BlockItem>): seq<Name> {
    if es == [] then [] else ElementNames(es[..|es| - 1]) + StatementNames(es[|es| - 1])
  }

  function StatementNames(item: BlockItem): seq<Name> {
    match item
    case Variable(name, _, initializer) => ExprNames(initializer) + GeneratedName(name)
    case Statement(e) => ExprNames(e)
  }

  function ExprNames(e: Expr): seq<Name> {
    match e
    case If(_, thenBlock, elseBlock) => BlockNames(thenBlock) + BlockNames(elseBlock)
    case While(_, body) => BlockNames(body)
    case _ => []
  }

  predicate Drawn(names: seq<Name>, counters: seq<nat>) {
    |names| == |counters| && forall i | 0 <= i < |names| :: names[i].Unique? && names[i].counter == counters[i]
  }

  lemma {:induction false} DrawnJoin(a: seq<Name>, x: seq<nat>, b: seq<Name>, y: seq<nat>)
    requires Drawn(a, x) && Drawn(b, y)
    ensures Drawn(a + b, x + y)
  {
  }

  lemma {:induction false} ItemNamesDrawn(item: Item)
    ensures Drawn(ItemNames(item), ItemCounters(item))
    decreases item
  {
    match item
    case Function(name, _, _, body) =>
      ElementNamesDrawn(body.elements);
      DrawnJoin(GeneratedName(name), CounterOf(name), BlockNames(body), BlockCounters(body));
    case Module(name, items) =>
      ItemsNamesDrawn(items);
      DrawnJoin(ItemsNames(items), ItemsCounters(items), GeneratedName(name), CounterOf(name));
    case _ =>
  }

  lemma {:induction false} ItemsNamesDrawn(items: seq<Item>)
    ensures Drawn(ItemsNames(items), ItemsCounters(items))
    decreases items
  {
    if items != [] {
      var n := |items| - 1;
      ItemsNamesDrawn(items[..n]);
      ItemNamesDrawn(items[n]);
      DrawnJoin(ItemsNames(items[..n]), ItemsCounters(items[..n]), ItemNames(items[n]), ItemCounters(items[n]));
    }
  }

  lemma {:induction false} ElementNamesDrawn(es: seq<BlockItem>)
    ensures Drawn(ElementNames(es), ElementCounters(es))
    decreases es
  {
    if es != [] {
      var n := |es| - 1;
      ElementNamesDrawn(es[..n]);
      StatementNamesDrawn(es[n]);
      DrawnJoin(ElementNames(es[..n]), ElementCounters(es[..n]), StatementNames(es[n]), StatementCounters(es[n]));
    }
  }

  lemma {:induction false} StatementNamesDrawn(item: BlockItem)
    ensures Drawn(StatementNames(item), StatementCounters(item))
    decreases item
  {
    match item
    case Variable(name, _, initializer) =>
      ExprNamesDrawn(initializer);
      DrawnJoin(ExprNames(initializer), ExprCounters(initializer), GeneratedName(name), CounterOf(name));
    case Statement(e) => ExprNamesDrawn(e);
  }

  lemma {:induction false} ExprNamesDrawn(e: Expr)
    ensures Drawn(ExprNames(e), ExprCounters(e))
    decreases e
  {
    match e
    case If(_, thenBlock, elseBlock) =>
      ElementNamesDrawn(thenBlock.elements);
      ElementNamesDrawn(elseBlock.elements);
      DrawnJoin(BlockNames(thenBlock), BlockCounters(thenBlock), BlockNames(elseBlock), BlockCounters(elseBlock));
    case While(_, body) => ElementNamesDrawn(body.elements);
    case _ =>
  }

  /** No two generated names of a program are the same text, and none is a text without an underscore. */
  predicate TextsDistinct(program: Item) {
    var names := ItemNames(program);
    && (forall i, j | 0 <= i < j < |names| :: Rendered(names[i]) != Rendered(names[j]))
    && (forall i | 0 <= i < |names| :: '_' in Rendered(names[i]))
  }

  /** Names numbered without repetition are different texts. */
  lemma {:induction false} ProgramTextsDistinct(program: Item, from: nat, to: nat)
    requires from <= to && ItemCounters(program) == Interval(from, to)
    ensures TextsDistinct(program)
  {
    hide ItemNames, ItemCounters, Numbered;
    ItemNamesDrawn(program);
    var names := ItemNames(program);
    forall i, j | 0 <= i < j < |names| ensures Rendered(names[i]) != Rendered(names[j]) {
      NumberedTextsDiffer(names[i].prefix, names[i].counter, names[j].prefix, names[j].counter);
    }
    forall i | 0 <= i < |names| ensures '_' in Rendered(names[i]) {
      NumberedParts(names[i].prefix, names[i].counter);
    }
  }
}
