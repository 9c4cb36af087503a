/** The random program generator: a mutable state that draws from an arbitrary stream of 64-bit words. */
module Generator {
  import opened Wrappers
  import opened FixedWidth
  import opened GeneratedProgram

  type Word64 = x: int | 0 <= x < 0x1_0000_0000_0000_0000
  type Stream = nat -> Word64
  type Word32 = x: int | 0 <= x < 0x1_0000_0000

  function WordAt(stream: Stream, i: nat): Word64 {
    stream(i)
  }

  const MAX_RVALUE_DEPTH: nat := 5
  const LITERAL_CAP: nat := 1_000_000

  datatype ValueKind = UnitKind | BoolKind | IntKind | FloatKind | TupleKind | UnaryKind | ArithKind | CmpKind | ShiftKind
  datatype ItemKind = StructItem | EnumItem | ConstItem | TypeAliasItem | ModuleItem | FunctionItem

  function ValueKindCost(kind: ValueKind): nat {
    match kind
    case UnaryKind => 2
    case ArithKind => 3
    case CmpKind => 3
    case ShiftKind => 3
    case _ => 1
  }

  // ---------------------------------------------------------------------------
  // Weighted choice
  // ---------------------------------------------------------------------------

  function Total<T>(options: seq<(nat, T)>): nat {
    if options == [] then 0 else options[0].0 + Total(options[1..])
  }

  /** The option whose share of the rolls contains the given roll. */
  function Chosen<T>(options: seq<(nat, T)>, roll: nat): T
    requires roll < Total(options)
  {
    if roll < options[0].0 then options[0].1 else Chosen(options[1..], roll - options[0].0)
  }

  lemma {:induction false} ChosenIsOffered<T>(options: seq<(nat, T)>, roll: nat)
    requires roll < Total(options)
    ensures exists i | 0 <= i < |options| :: Chosen(options, roll) == options[i].1
  {
    if roll < options[0].0 {
      assert Chosen(options, roll) == options[0].1;
    } else {
      ChosenIsOffered(options[1..], roll - options[0].0);
      var i :| 0 <= i < |options[1..]| && Chosen(options[1..], roll - options[0].0) == options[1..][i].1;
      assert options[1..][i] == options[i + 1];
    }
  }

  /** Option `i` is chosen by exactly its weight of consecutive rolls, those after the weights before it. */
  lemma {:induction false} ChoiceFollowsWeights<T>(options: seq<(nat, T)>, i: nat, k: nat)
    requires i < |options| && k < options[i].0
    ensures Total(options[..i]) + k < Total(options)
    ensures Chosen(options, Total(options[..i]) + k) == options[i].1
  {
    if i > 0 {
      assert options[..i][1..] == options[1..][..i - 1];
      ChoiceFollowsWeights(options[1..], i - 1, k);
    }
  }

  /** The option a random word picks: its low 32 bits are the roll. */
  function Pick<T>(options: seq<(nat, T)>, word: Word64): T
    requires 0 < Total(options)
  {
    Chosen(options, word % 0x1_0000_0000 % Total(options))
  }

  /** Every option of positive weight is picked by some word, when the weights fit 32 bits. */
  lemma {:induction false} EveryOptionIsPicked<T>(options: seq<(nat, T)>, i: nat) returns (word: Word64)
    requires i < |options| && 0 < options[i].0 && Total(options) < 0x1_0000_0000
    ensures 0 < Total(options) && Pick(options, word) == options[i].1
  {
    hide Total, Chosen;
    ChoiceFollowsWeights(options, i, 0);
    word := Total(options[..i]);
    ModUnique(word, 0x1_0000_0000, 0, word);
    ModUnique(word, Total(options), 0, word);
  }

  /** The kinds of value that have a given type; operators only while not forced to a leaf. */
  predicate KindSuits(kind: ValueKind, t: Type, force: bool) {
    if IsUnit(t) then kind.UnitKind?
    else if t.BoolType? then kind.BoolKind? || (!force && (kind.UnaryKind? || kind.CmpKind? || kind.ArithKind?))
    else if t.IntType? then kind.IntKind? || (!force && (kind.UnaryKind? || kind.ArithKind? || kind.ShiftKind?))
    else if IsFloat(t) then kind.FloatKind? || (!force && (kind.UnaryKind? || kind.ArithKind?))
    else kind.TupleKind?
  }

  /** How often each kind is offered for a type. */
  function ValueOptions(t: Type, force: bool): (options: seq<(nat, ValueKind)>)
    ensures 0 < Total(options) < 100
    ensures forall i | 0 <= i < |options| :: KindSuits(options[i].1, t, force)
  {
    var none: seq<(nat, ValueKind)> := [];
    if IsUnit(t) then [(10, UnitKind)]
    else if t.BoolType? then [(9, BoolKind)] + if force then none else [(3, UnaryKind), (3, CmpKind), (2, ArithKind)]
    else if t.IntType? then [(9, IntKind)] + if force then none else [(3, UnaryKind), (4, ArithKind), (1, ShiftKind)]
    else if IsFloat(t) then [(9, FloatKind)] + if force then none else [(3, UnaryKind), (4, ArithKind)]
    else [(10, TupleKind)]
  }

  /** The kinds picked for a type over all words are exactly those that suit it. */
  lemma {:induction false} KindIsPickedIff(t: Type, force: bool, kind: ValueKind)
    ensures (exists word: Word64 :: Pick(ValueOptions(t, force), word) == kind) <==> KindSuits(kind, t, force)
  {
    var options := ValueOptions(t, force);
    if word: Word64 :| Pick(options, word) == kind {
      ChosenIsOffered(options, word % 0x1_0000_0000 % Total(options));
    }
    if KindSuits(kind, t, force) {
      var i := if kind == options[0].1 then 0 else if kind == options[1].1 then 1 else if kind == options[2].1 then 2 else 3;
      var word := EveryOptionIsPicked(options, i);
    }
  }

  function ItemOptions(itemDepth: nat): (options: seq<(nat, ItemKind)>)
    ensures 0 < Total(options)
  {
    [(30, FunctionItem), (22, StructItem), (16, EnumItem), (14, ConstItem), (10, TypeAliasItem)]
    + if itemDepth < MAX_ITEM_DEPTH then [(8, ModuleItem)] else []
  }

  lemma {:induction false} ItemWeights(itemDepth: nat)
    ensures Total(ItemOptions(itemDepth)) == if itemDepth < MAX_ITEM_DEPTH then 100 else 92
  {
    var o := ItemOptions(itemDepth);
    assert Total(o[5..]) == if itemDepth < MAX_ITEM_DEPTH then 8 else 0;
    assert o[4..][1..] == o[5..] && o[3..][1..] == o[4..] && o[2..][1..] == o[3..] && o[1..][1..] == o[2..];
    assert Total(o[3..]) == 14 + (10 + Total(o[5..]));
    assert Total(o[1..]) == 22 + (16 + Total(o[3..]));
  }

  /** Every kind of item is picked by some word, modules only while they may nest. */
  lemma {:induction false} ItemIsPickedIff(itemDepth: nat, kind: ItemKind)
    ensures (exists word: Word64 :: Pick(ItemOptions(itemDepth), word) == kind) <==>
            (kind.ModuleItem? ==> itemDepth < 3)
  {
    var options := ItemOptions(itemDepth);
    if word: Word64 :| Pick(options, word) == kind {
      ChosenIsOffered(options, word % 0x1_0000_0000 % Total(options));
    }
    if kind.ModuleItem? ==> itemDepth < MAX_ITEM_DEPTH {
      var i := match kind
        case FunctionItem => 0
        case StructItem => 1
        case EnumItem => 2
        case ConstItem => 3
        case TypeAliasItem => 4
        case ModuleItem => 5;
      ItemWeights(itemDepth);
      var word := EveryOptionIsPicked(options, i);
    }
  }

  function ItemCost(kind: ItemKind): nat {
    match kind
    case FunctionItem => 10
    case StructItem => 5
    case EnumItem => 5
    case ConstItem => 3
    case TypeAliasItem => 2
    case ModuleItem => 4
  }

  function ItemPrefix(kind: ItemKind): string {
    match kind
    case FunctionItem => "fn"
    case StructItem => "Struct"
    case EnumItem => "Enum"
    case ConstItem => "CONST"
    case TypeAliasItem => "Type"
    case ModuleItem => "module"
  }

  predicate IsItem(kind: ItemKind, item: Item) {
    && item.name.Unique? && item.name.prefix == ItemPrefix(kind)
    && match kind
      case FunctionItem => item.Function?
      case StructItem => item.Struct?
      case EnumItem => item.Enum?
      case ConstItem => item.Const?
      case TypeAliasItem => item.TypeAlias?
      case ModuleItem => item.Module?
  }

  predicate LeadingFunctions(items: seq<Item>, n: nat) {
    n <= |items| && forall i | 0 <= i < n :: items[i].Function?
  }

  const PRIMITIVES: seq<Type> :=
    [BoolType, IntType(I32), IntType(I64), IntType(I8), IntType(I16), IntType(U8), IntType(U16), IntType(U32),
     IntType(U64), IntType(USize(64)), Float32Type, Float64Type]

  /** The type drawn from a position of the stream on, at a nesting depth, and the position behind it: one word in eight
      starts a tuple of two to four types. */
  function TypeAt(stream: Stream, pos: nat, depth: nat): (Type, nat)
    decreases SaturatingSub(MAX_TYPE_DEPTH, depth), 0
  {
    if depth >= MAX_TYPE_DEPTH then (PRIMITIVES[WordAt(stream, pos) % 12], pos + 1)
    else if WordAt(stream, pos) % 8 == 0 then
      var (elements, end) := TypesAt(stream, pos + 2, depth + 1, 2 + WordAt(stream, pos + 1) % 3);
      (TupleType(elements), end)
    else (PRIMITIVES[WordAt(stream, pos + 1) % 12], pos + 2)
  }

  /** So many types one after the other. */
  function TypesAt(stream: Stream, pos: nat, depth: nat, count: nat): (r: (seq<Type>, nat))
    ensures |r.0| == count
    decreases SaturatingSub(MAX_TYPE_DEPTH, depth), count
  {
    if count == 0 then ([], pos)
    else
      var (types, next) := TypesAt(stream, pos, depth, count - 1);
      var (t, end) := TypeAt(stream, next, depth);
      (types + [t], end)
  }

  lemma {:induction false} NextType(stream: Stream, pos: nat, depth: nat, count: nat)
    ensures var (types, next) := TypesAt(stream, pos, depth, count);
      var (t, end) := TypeAt(stream, next, depth);
      TypesAt(stream, pos, depth, count + 1) == (types + [t], end)
    ensures TypesAt(stream, pos, depth, 0) == ([], pos)
  {
  }

  /** So many optional types one after the other, each behind an odd word. */
  function PayloadsAt(stream: Stream, pos: nat, count: nat): (r: (seq<Option<Type>>, nat))
    ensures |r.0| == count
  {
    if count == 0 then ([], pos)
    else
      var (payloads, next) := PayloadsAt(stream, pos, count - 1);
      if WordAt(stream, next) % 2 == 0 then (payloads + [None], next + 1)
      else
        var (t, end) := TypeAt(stream, next + 1, 0);
        (payloads + [Some(t)], end)
  }

  lemma {:induction false} NextPayload(stream: Stream, pos: nat, count: nat)
    ensures var (payloads, next) := PayloadsAt(stream, pos, count);
      var (t, end) := TypeAt(stream, next + 1, 0);
      PayloadsAt(stream, pos, count + 1) ==
        if WordAt(stream, next) % 2 == 0 then (payloads + [None], next + 1) else (payloads + [Some(t)], end)
    ensures PayloadsAt(stream, pos, 0) == ([], pos)
  {
  }

  predicate TypedBy(params: seq<Param>, types: seq<Type>) {
    |params| == |types| && forall k | 0 <= k < |types| :: params[k].ty == types[k]
  }

  /** So many parameters with the types drawn behind their number, and a result type behind an odd word. */
  predicate SignatureDrawn(params: seq<Param>, result: Option<Type>, stream: Stream, pos: nat, count: nat) {
    var (types, next) := TypesAt(stream, pos + 1, 0, count);
    && TypedBy(params, types)
    && result == if WordAt(stream, next) % 2 == 1 then Some(TypeAt(stream, next + 1, 0).0) else None
  }

  lemma {:induction false} SignatureFromTypes(
      params: seq<Param>, result: Option<Type>, stream: Stream, pos: nat, types: seq<Type>, next: nat)
    requires (types, next) == TypesAt(stream, pos + 1, 0, |types|) && TypedBy(params, types)
    requires result == if WordAt(stream, next) % 2 == 1 then Some(TypeAt(stream, next + 1, 0).0) else None
    ensures SignatureDrawn(params, result, stream, pos, |types|)
  {
  }

  /** Numbered variants with the given payloads. */
  predicate VariantsDrawn(variants: seq<Variant>, payloads: seq<Option<Type>>) {
    |variants| == |payloads|
    && forall k | 0 <= k < |payloads| :: variants[k] == Variant(Indexed("Variant", k), payloads[k])
  }

  lemma {:induction false} NextVariant(variants: seq<Variant>, payloads: seq<Option<Type>>, payload: Option<Type>)
    requires VariantsDrawn(variants, payloads)
    ensures VariantsDrawn(variants + [Variant(Indexed("Variant", |variants|), payload)], payloads + [payload])
  {
  }

  lemma {:induction false} NoVariants()
    ensures VariantsDrawn([], [])
  {
  }

  lemma {:induction false} EnumOf(name: Name, variants: seq<Variant>, payloads: seq<Option<Type>>)
    requires |payloads| >= 2 && VariantsDrawn(variants, payloads)
    requires forall k | 0 <= k < |payloads| :: DeclarablePayload(payloads[k])
    ensures WellFormed(Enum(name, variants), 0) && variants[0].payload == payloads[0]
  {
  }

  const COMPARISONS: seq<BinaryOp> := [Lt, Gt, Le, Ge, Eq]

  function ArithmeticOps(t: Type): (ops: seq<BinaryOp>)
    ensures ops != []
  {
    if t.BoolType? then [LogicOr, LogicAnd] else if t.IntType? then [Add, Sub, Mul, Div, Mod] else [Add, Sub, Mul, Div]
  }

  /** Literals and tuples of them: no operator anywhere. */
  predicate IsLeaf(e: Expr) {
    match e
    case Boolean(_) => true
    case Cast(literal, _) => literal.Integer? || literal.Float?
    case Tuple(elements) => forall i | 0 <= i < |elements| :: IsLeaf(elements[i])
    case _ => false
  }

  /** At most `n` tuples and binary operators around one another; a unary operator stands on a leaf. */
  predicate NestsWithin(e: Expr, n: nat)
    decreases e
  {
    IsLeaf(e) ||
    match e
    case Unary(_, operand) => IsLeaf(operand)
    case Parentheses(inner) => NestsWithin(inner, n)
    case Binary(_, left, right) => n > 0 && NestsWithin(left, n - 1) && NestsWithin(right, n - 1)
    case Tuple(elements) => n > 0 && forall i | 0 <= i < |elements| :: NestsWithin(elements[i], n - 1)
    case _ => false
  }

  /** What a value of each kind looks like. */
  predicate IsOfKind(kind: ValueKind, e: Expr) {
    match kind
    case UnitKind => e == Tuple([])
    case BoolKind => e.Boolean?
    case IntKind => e.Cast? && e.literal.Integer?
    case FloatKind => e.Cast? && e.literal.Float?
    case TupleKind => e.Tuple?
    case UnaryKind => e.Unary?
    case ArithKind => e.Binary? && (e.op.Add? || e.op.Sub? || e.op.Mul? || e.op.Div? || e.op.Mod? || e.op.LogicAnd? || e.op.LogicOr?)
    case CmpKind => e.Binary? && (e.op.Lt? || e.op.Gt? || e.op.Le? || e.op.Ge? || e.op.Eq?)
    case ShiftKind => e.Binary? && (e.op.Shl? || e.op.Shr?)
  }

  /** What a value is when it is drawn at a depth, from a word and with a budget: of the kind the word picks and at that
      kind's cost, or a free leaf when it is not affordable. */
  predicate ValueDrawn(t: Type, depth: nat, word: Word64, before: nat, after: nat, e: Expr) {
    if before == 0 then IsLeaf(e) && after == before
    else
      var kind := Pick(ValueOptions(t, depth >= 5 || before < 2), word);
      if before < ValueKindCost(kind) then IsLeaf(e) && after == before
      else IsOfKind(kind, e) && after + ValueKindCost(kind) <= before
  }

  function Operands(e: Expr): nat {
    if e.Unary? then 1 else if e.Binary? then 2 else 0
  }

  /** A value costs one, and one more for each operand. */
  lemma {:induction false} CostCountsOperands(kind: ValueKind, e: Expr)
    requires IsOfKind(kind, e)
    ensures ValueKindCost(kind) == 1 + Operands(e)
  {
  }

  /** A statement and how it is drawn from a word: with enough budget and where control flow is allowed, 28 rolls in a
      hundred give an `if` or `while`; of the others those below 70 a variable, the rest a discarded value. */
  predicate StatementDrawn(item: BlockItem, allowControl: bool, budget: nat, counter: nat, word: Word64) {
    var roll := word % 100;
    if allowControl && roll < 28 && budget >= 6 then ControlStatement(item)
    else if roll < 70 then item.Variable? && item.name == Unique("v", counter) && PlainStatement(item)
    else item.Statement? && PlainStatement(item)
  }

  predicate ConditionDrawn(e: Expr, stream: Stream, pos: nat) {
    match WordAt(stream, pos) % 4
    case 0 => e == Boolean(true)
    case 1 => e == Boolean(false)
    case 2 => e == Unary(Not, Boolean(WordAt(stream, pos + 1) % 2 == 1))
    case _ => IsOfKind(CmpKind, e)
  }

  /** The words a condition takes. */
  function ConditionWords(word: Word64): nat {
    match word % 4 case 0 => 1 case 1 => 1 case 2 => 2 case _ => 4
  }

  function LiteralCap(t: Type): nat {
    var max := MagnitudeMax(t);
    if max.Some? && max.value < LITERAL_CAP then max.value else LITERAL_CAP
  }

  function IntLiteral(t: Type, word: Word64): Expr {
    Cast(Integer(word % (LiteralCap(t) + 1)), t)
  }

  /** The random bits are the top twenty of the fraction of a number between one and two. */
  function FloatLiteral(t: Type, word: Word64): Expr {
    Cast(Float(1.0 + (word % 0x10_0000) as real / 1048576.0), t)
  }

  predicate IsScalar(t: Type) {
    t.BoolType? || t.IntType? || IsFloat(t)
  }

  /** The literal a word stands for at a scalar type. */
  function ScalarLeaf(t: Type, word: Word64): Expr
    requires IsScalar(t)
  {
    if t.BoolType? then Boolean(word % 2 == 1) else if t.IntType? then IntLiteral(t, word) else FloatLiteral(t, word)
  }

  /** The integer literals drawn over all words are exactly those that fit the type, up to a million. */
  lemma {:induction false} LiteralIsDrawnIff(t: Type, v: nat)
    requires t.IntType?
    ensures (exists word: Word64 :: IntLiteral(t, word) == Cast(Integer(v), t)) <==> Fits(t.kind, v) && v <= 1_000_000
  {
    MagnitudeMaxIsExact(t, v);
    if v <= LiteralCap(t) {
      var word: Word64 := v;
      assert IntLiteral(t, word) == Cast(Integer(v), t);
    }
  }

  /** Wraps a binary expression so that it can stand as an operand. */
  function ParenthesizeBinary(e: Expr): (r: Expr)
    ensures !r.Binary? && TypeOf(r) == TypeOf(e)
  {
    if e.Binary? then Parentheses(e) else e
  }

  /** A value for a type: it always type-checks, and at that type exactly when the type has values at all. */
  predicate ValueFor(e: Expr, t: Type) {
    TypeOf(e).Some? && (HasType(e, t) <==> Constructible(t))
  }

  lemma {:induction false} TupleValueFor(elements: seq<Expr>, t: Type)
    requires t.TupleType? || t.NamedType?
    requires |elements| == |TupleFields(t)|
    requires forall i | 0 <= i < |elements| :: ValueFor(elements[i], TupleFields(t)[i])
    ensures ValueFor(Tuple(elements), t)
  {
    var types := seq(|elements|, i requires 0 <= i < |elements| => TypeOf(elements[i]).value);
    TypesOfElements(elements, types);
    if t.TupleType? {
      if Constructible(t) {
        TypesOfElements(elements, t.elements);
      } else {
        var i :| 0 <= i < |t.elements| && !Constructible(t.elements[i]);
        assert types[i] != t.elements[i];
      }
    }
  }

  lemma {:induction false} UnitValueFor(t: Type)
    ensures IsUnit(t) ==> ValueFor(Tuple([]), t)
  {
  }

  lemma {:induction false} TypedValueFor(e: Expr, t: Type)
    requires HasType(e, t) && IsScalar(t)
    ensures ValueFor(e, t)
  {
  }

  lemma {:induction false} NothingDrawn(elements: seq<BlockItem>, last: BlockItem)
    requires last.Statement? && last.expr.Return?
    ensures ElementCounters(elements + [last]) == ElementCounters(elements)
  {
    var extended := elements + [last];
    assert extended[..|elements|] == elements && extended[|elements|] == last;
    CountersAppend(elements, extended);
    assert StatementCounters(last) == [];
    assert ElementCounters(elements) + [] == ElementCounters(elements);
  }

  lemma {:induction false} NoCounters(n: nat)
    ensures ElementCounters([]) == Interval(n, n)
  {
  }

  lemma {:induction false} SingleItemCounters(item: Item)
    ensures ItemsCounters([item]) == ItemCounters(item)
  {
    assert [item][..0] == [];
    assert [] + ItemCounters(item) == ItemCounters(item);
  }

  lemma {:induction false} NoItemCounters(n: nat)
    ensures ItemsCounters([]) == Interval(n, n)
  {
  }

  lemma {:induction false} FunctionOf(name: Name, params: seq<Param>, returnType: Option<Type>, body: Block)
    requires forall k | 0 <= k < |params| :: params[k].name == Indexed("a", k) && Declarable(params[k].ty)
    requires returnType.Some? ==> Declarable(returnType.value)
    requires FunctionBody(body, if returnType.Some? then returnType.value else UNIT)
    ensures var item := Function(name, params, returnType, body);
      WellFormed(item, 0) && ItemCounters(item) == CounterOf(name) + BlockCounters(body)
  {
  }

  lemma {:induction false} ModuleOf(name: Name, items: seq<Item>, depth: nat)
    requires forall i | 0 <= i < |items| :: WellFormed(items[i], depth)
    ensures WellFormed(Module(name, items), depth + 1)
    ensures ItemCounters(Module(name, items)) == ItemsCounters(items) + CounterOf(name)
    ensures name.Fixed? ==> ItemCounters(Module(name, items)) == ItemsCounters(items)
  {
    assert ItemsCounters(items) + [] == ItemsCounters(items);
  }

  datatype Config = Config(maxBudget: Word32, functionCount: Word32)

  class Gen {
    const config: Config
    const stream: Stream
    var drawn: nat
    var budget: nat
    var rvalueDepth: nat
    var itemDepth: nat
    var typeDepth: nat
    var nameCounter: nat

    constructor (config: Config, stream: Stream)
      ensures this.config == config && AtRest() && budget == config.maxBudget && nameCounter == 0
    {
      this.config, this.stream, drawn := config, stream, 0;
      budget, rvalueDepth, itemDepth, typeDepth, nameCounter := config.maxBudget, 0, 0, 0, 0;
    }

    predicate AtRest()
      reads this
    {
      rvalueDepth == 0 && itemDepth == 0 && typeDepth == 0
    }

    /** Every generator puts the depth counters back and only ever spends budget. */
    twostate predicate Balanced()
      reads this
    {
      && rvalueDepth == old(rvalueDepth) && itemDepth == old(itemDepth) && typeDepth == old(typeDepth)
      && budget <= old(budget) && nameCounter >= old(nameCounter)
    }

    /** No more names were drawn than budget was spent. */
    twostate predicate Thrifty()
      reads this
    {
      nameCounter + budget <= old(nameCounter) + old(budget)
    }

    // ---- state ----

    method NextU64() returns (r: Word64)
      modifies this`drawn
      ensures r == WordAt(stream, old(drawn)) && drawn == old(drawn) + 1
    {
      r := stream(drawn);
      drawn := drawn + 1;
    }

    method NextBool() returns (r: bool)
      modifies this`drawn
      ensures r == (WordAt(stream, old(drawn)) % 2 == 1) && drawn == old(drawn) + 1
    {
      var word := NextU64();
      return word % 2 != 0;
    }

    method GenIndex(max: nat) returns (r: nat)
      requires max > 0
      modifies this`drawn
      ensures r == WordAt(stream, old(drawn)) % max && drawn == old(drawn) + 1
    {
      var word := NextU64();
      return word % max;
    }

    method PickWeighted<T>(options: seq<(nat, T)>) returns (code: T)
      requires 0 < Total(options)
      modifies this`drawn
      ensures code == Pick(options, WordAt(stream, old(drawn))) && drawn == old(drawn) + 1
    {
      code := options[0].1;
      var total := 0;
      for i := 0 to |options|
        invariant total + Total(options[i..]) == Total(options)
      {
        assert options[i..][1..] == options[i + 1..];
        total := total + options[i].0;
      }
      var word := NextU64();
      var roll: nat := word % 0x1_0000_0000 % total;
      ghost var start := roll;
      for i := 0 to |options|
        invariant roll < Total(options[i..])
        invariant Chosen(options, start) == Chosen(options[i..], roll)
      {
        assert options[i..][0] == options[i] && options[i..][1..] == options[i + 1..];
        if roll < options[i].0 {
          return options[i].1;
        }
        roll := roll - options[i].0;
      }
      assert false;
    }

    method SpendBudget(amount: nat) returns (ok: bool)
      modifies this`budget
      ensures ok <==> old(budget) >= amount
      ensures budget == if ok then old(budget) - amount else old(budget)
    {
      if budget < amount {
        return false;
      }
      budget := budget - amount;
      return true;
    }

    predicate ForceLeaf()
      reads this
    {
      rvalueDepth >= MAX_RVALUE_DEPTH || budget < 2
    }

    method GenUniqueName(prefix: string) returns (name: Name)
      modifies this`nameCounter
      ensures name == Unique(prefix, old(nameCounter)) && nameCounter == old(nameCounter) + 1
      ensures CounterOf(name) == Interval(old(nameCounter), nameCounter)
    {
      name := Unique(prefix, nameCounter);
      nameCounter := nameCounter + 1;
    }

    // ---- types ----

    method GenPrimitiveType() returns (t: Type)
      modifies this`drawn
      ensures t == PRIMITIVES[WordAt(stream, old(drawn)) % 12] && drawn == old(drawn) + 1
      ensures forall depth: nat :: Concrete(t, depth)
    {
      var word := NextU64();
      match word % 12
      case 0 => return BoolType;
      case 1 => return IntType(I32);
      case 2 => return IntType(I64);
      case 3 => return IntType(I8);
      case 4 => return IntType(I16);
      case 5 => return IntType(U8);
      case 6 => return IntType(U16);
      case 7 => return IntType(U32);
      case 8 => return IntType(U64);
      case 9 => return IntType(USize(64));
      case 10 => return Float32Type;
      case _ => return Float64Type;
    }

    method GenConcreteType() returns (t: Type)
      modifies this`drawn, this`typeDepth
      ensures typeDepth == old(typeDepth)
      ensures Concrete(t, SaturatingSub(MAX_TYPE_DEPTH, typeDepth))
      ensures (t, drawn) == TypeAt(stream, old(drawn), typeDepth)
      ensures t.TupleType? <==> typeDepth < 4 && WordAt(stream, old(drawn)) % 8 == 0
      ensures t.TupleType? ==> |t.elements| == 2 + WordAt(stream, old(drawn) + 1) % 3
      decreases SaturatingSub(MAX_TYPE_DEPTH, typeDepth), 0
    {
      if typeDepth >= MAX_TYPE_DEPTH {
        t := GenPrimitiveType();
        return;
      }
      typeDepth := typeDepth + 1;
      var word := NextU64();
      if word % 8 == 0 {
        t := GenTupleType();
      } else {
        t := GenPrimitiveType();
      }
      assert typeDepth >= 1;
      typeDepth := SaturatingSub(typeDepth, 1);
    }

    method GenTupleType() returns (t: Type)
      modifies this`drawn, this`typeDepth
      ensures typeDepth == old(typeDepth)
      ensures Concrete(t, SaturatingSub(MAX_TYPE_DEPTH, typeDepth) + 1)
      ensures t.TupleType? && |t.elements| == 2 + WordAt(stream, old(drawn)) % 3
      ensures (t.elements, drawn) == TypesAt(stream, old(drawn) + 1, typeDepth, 2 + WordAt(stream, old(drawn)) % 3)
      decreases SaturatingSub(MAX_TYPE_DEPTH, typeDepth), 1
    {
      var word := NextU64();
      var count := 2 + word % 3;
      var elements: seq<Type> := [];
      for i := 0 to count
        invariant typeDepth == old(typeDepth)
        invariant (elements, drawn) == TypesAt(stream, old(drawn) + 1, typeDepth, i)
        invariant forall k | 0 <= k < i :: Concrete(elements[k], SaturatingSub(MAX_TYPE_DEPTH, typeDepth))
      {
        var element := GenConcreteType();
        elements := elements + [element];
      }
      return TupleType(elements);
    }

    // ---- leaf values ----

    method GenBoolLeaf() returns (e: Expr)
      modifies this`drawn
      ensures HasType(e, BoolType) && !e.Binary?
      ensures e == Boolean(WordAt(stream, old(drawn)) % 2 == 1) && drawn == old(drawn) + 1
    {
      var value := NextBool();
      return Boolean(value);
    }

    method GenIntLeaf(t: Type) returns (e: Expr)
      requires t.IntType?
      modifies this`drawn
      ensures HasType(e, t) && !e.Binary?
      ensures e == IntLiteral(t, WordAt(stream, old(drawn))) && drawn == old(drawn) + 1
    {
      var max := MagnitudeMax(t);
      var magnitude := if max.Some? then max.value else LITERAL_CAP;
      var cap := if magnitude < LITERAL_CAP then magnitude else LITERAL_CAP;
      var word := NextU64();
      var value: nat := word % (cap + 1);
      MagnitudeMaxIsExact(t, value);
      return Cast(Integer(value), t);
    }

    method GenFloatLeaf(t: Type) returns (e: Expr)
      requires IsFloat(t)
      modifies this`drawn
      ensures HasType(e, t) && !e.Binary?
      ensures e == FloatLiteral(t, WordAt(stream, old(drawn))) && drawn == old(drawn) + 1
      ensures 1.0 <= e.literal.approximation < 2.0
    {
      var bits := NextU64();
      var mantissa: int := bits % 0x10_0000;
      return Cast(Float(1.0 + mantissa as real / 1048576.0), t);
    }

    method GenLeafValue(t: Type) returns (e: Expr)
      modifies this`drawn
      ensures ValueFor(e, t) && !e.Binary? && IsLeaf(e)
      ensures IsScalar(t) ==> e == ScalarLeaf(t, WordAt(stream, old(drawn))) && drawn == old(drawn) + 1
      decreases t
    {
      if IsUnit(t) {
        return Tuple([]);
      } else if t.BoolType? {
        e := GenBoolLeaf();
      } else if t.IntType? {
        e := GenIntLeaf(t);
      } else if IsFloat(t) {
        e := GenFloatLeaf(t);
      } else {
        var fields := TupleFields(t);
        var elements: seq<Expr> := [];
        for i := 0 to |fields|
          invariant |elements| == i
          invariant forall k | 0 <= k < i :: ValueFor(elements[k], fields[k]) && IsLeaf(elements[k])
        {
          var element := GenLeafValue(fields[i]);
          elements := elements + [element];
        }
        TupleValueFor(elements, t);
        return Tuple(elements);
      }
    }

    // ---- values ----

    method SelectValueKind(t: Type, force: bool) returns (kind: ValueKind)
      modifies this`drawn
      ensures kind == Pick(ValueOptions(t, force), WordAt(stream, old(drawn))) && drawn == old(drawn) + 1
      ensures KindSuits(kind, t, force)
    {
      var options: seq<(nat, ValueKind)>;
      if IsUnit(t) {
        options := [(10, UnitKind)];
      } else if t.BoolType? {
        options := [(9, BoolKind)] + if force then [] else [(3, UnaryKind), (3, CmpKind), (2, ArithKind)];
      } else if t.IntType? {
        options := [(9, IntKind)] + if force then [] else [(3, UnaryKind), (4, ArithKind), (1, ShiftKind)];
      } else if IsFloat(t) {
        options := [(9, FloatKind)] + if force then [] else [(3, UnaryKind), (4, ArithKind)];
      } else {
        options := [(10, TupleKind)];
      }
      assert options == ValueOptions(t, force);
      ChosenIsOffered(options, WordAt(stream, drawn) % 0x1_0000_0000 % Total(options));
      kind := PickWeighted(options);
    }

    method GenValue(t: Type) returns (e: Expr)
      modifies this`drawn, this`budget, this`rvalueDepth
      ensures Balanced() && ValueFor(e, t)
      ensures NestsWithin(e, SaturatingSub(5, rvalueDepth + 1))
      ensures ValueDrawn(t, rvalueDepth + 1, WordAt(stream, old(drawn)), old(budget), budget, e)
      decreases SaturatingSub(MAX_RVALUE_DEPTH, rvalueDepth + 1), 4
    {
      if budget == 0 {
        e := GenLeafValue(t);
        return;
      }
      rvalueDepth := rvalueDepth + 1;
      e := GenValueInner(t);
      assert rvalueDepth >= 1;
      rvalueDepth := SaturatingSub(rvalueDepth, 1);
    }

    method GenValueInner(t: Type) returns (e: Expr)
      requires budget > 0
      modifies this`drawn, this`budget, this`rvalueDepth
      ensures Balanced() && ValueFor(e, t)
      ensures NestsWithin(e, SaturatingSub(MAX_RVALUE_DEPTH, rvalueDepth))
      ensures ValueDrawn(t, rvalueDepth, WordAt(stream, old(drawn)), old(budget), budget, e)
      decreases SaturatingSub(MAX_RVALUE_DEPTH, rvalueDepth), 3
    {
      hide ValueOptions, Pick, WordAt, ArithmeticOps;
      var force := ForceLeaf();
      var kind := SelectValueKind(t, force);
      var affordable := SpendBudget(ValueKindCost(kind));
      if !affordable {
        e := GenLeafValue(t);
        return;
      }
      match kind
      case UnitKind =>
        UnitValueFor(t);
        e := Tuple([]);
      case BoolKind => e := GenBoolLeaf();
      case IntKind => e := GenIntLeaf(t);
      case FloatKind => e := GenFloatLeaf(t);
      case TupleKind => e := GenTupleValue(t, force);
      case UnaryKind => e := GenUnaryValue(t);
      case ArithKind => e := GenArithValue(t);
      case CmpKind => e := GenCmpValue();
      case ShiftKind => e := GenShiftValue(t);
      if !kind.UnitKind? && !kind.TupleKind? {
        TypedValueFor(e, t);
      }
    }

    method GenTupleValue(t: Type, force: bool) returns (e: Expr)
      requires t.TupleType? || t.NamedType?
      requires force || rvalueDepth < MAX_RVALUE_DEPTH
      modifies this`drawn, this`budget, this`rvalueDepth
      ensures Balanced() && ValueFor(e, t)
      ensures e.Tuple? && |e.elements| == |TupleFields(t)|
      ensures if force then IsLeaf(e) && budget == old(budget) else NestsWithin(e, MAX_RVALUE_DEPTH - rvalueDepth)
      decreases SaturatingSub(MAX_RVALUE_DEPTH, rvalueDepth), 2
    {
      var fields := TupleFields(t);
      var elements: seq<Expr> := [];
      for i := 0 to |fields|
        invariant Balanced() && |elements| == i
        invariant forall k | 0 <= k < i :: ValueFor(elements[k], fields[k])
        invariant if force then budget == old(budget) && forall k | 0 <= k < i :: IsLeaf(elements[k])
                  else forall k | 0 <= k < i :: NestsWithin(elements[k], MAX_RVALUE_DEPTH - rvalueDepth - 1)
      {
        var element;
        if force {
          element := GenLeafValue(fields[i]);
        } else {
          element := GenValue(fields[i]);
        }
        elements := elements + [element];
      }
      TupleValueFor(elements, t);
      return Tuple(elements);
    }

    method GenUnaryValue(t: Type) returns (e: Expr)
      requires IsScalar(t)
      modifies this`drawn
      ensures HasType(e, t) && e.Unary? && IsLeaf(e.operand)
      ensures e.unaryOp ==
        if t.BoolType? then Not
        else if (IsSigned(t) || IsFloat(t)) && WordAt(stream, old(drawn)) % 2 == 1 then Minus else Plus
      ensures e.operand == ScalarLeaf(t, WordAt(stream, old(drawn) + if IsSigned(t) || IsFloat(t) then 1 else 0))
    {
      if t.BoolType? {
        var operand := GenBoolLeaf();
        return Unary(Not, operand);
      } else if IsSigned(t) || IsFloat(t) {
        var minus := NextBool();
        var operand := GenLeafValue(t);
        return Unary(if minus then Minus else Plus, operand);
      } else {
        var operand := GenLeafValue(t);
        return Unary(Plus, operand);
      }
    }

    method GenArithValue(t: Type) returns (e: Expr)
      requires IsScalar(t)
      requires rvalueDepth < MAX_RVALUE_DEPTH
      modifies this`drawn, this`budget, this`rvalueDepth
      ensures Balanced() && HasType(e, t)
      ensures e.Binary? && e.op == ArithmeticOps(t)[WordAt(stream, old(drawn)) % |ArithmeticOps(t)|] && IsOfKind(ArithKind, e)
      ensures WordAt(stream, old(drawn) + 1) % 3 == 0 ==> e.left == ScalarLeaf(t, WordAt(stream, old(drawn) + 2))
      ensures NestsWithin(e, MAX_RVALUE_DEPTH - rvalueDepth)
      decreases SaturatingSub(MAX_RVALUE_DEPTH, rvalueDepth), 2
    {
      hide WordAt, ValueDrawn, ScalarLeaf;
      var op;
      if t.BoolType? {
        var conjunction := NextBool();
        op := if conjunction then LogicAnd else LogicOr;
      } else if t.IntType? {
        var ops := [Add, Sub, Mul, Div, Mod];
        var i := GenIndex(|ops|);
        op := ops[i];
      } else {
        var ops := [Add, Sub, Mul, Div];
        var i := GenIndex(|ops|);
        op := ops[i];
      }
      var left := GenOperand(t);
      var right := GenOperand(t);
      return Binary(op, left, right);
    }

    method GenCmpValue() returns (e: Expr)
      modifies this`drawn
      ensures HasType(e, BoolType)
      ensures e == Binary(COMPARISONS[WordAt(stream, old(drawn)) % 5],
                          IntLiteral(INT32, WordAt(stream, old(drawn) + 1)), IntLiteral(INT32, WordAt(stream, old(drawn) + 2)))
      ensures IsOfKind(CmpKind, e) && NestsWithin(e, 1)
      ensures drawn == old(drawn) + 3
    {
      var ops := [Lt, Gt, Le, Ge, Eq];
      var i := GenIndex(|ops|);
      var left := GenIntLeaf(INT32);
      var right := GenIntLeaf(INT32);
      return Binary(ops[i], left, right);
    }

    method GenShiftValue(t: Type) returns (e: Expr)
      requires t.IntType?
      requires rvalueDepth < MAX_RVALUE_DEPTH
      modifies this`drawn, this`budget, this`rvalueDepth
      ensures Balanced() && HasType(e, t)
      ensures e.Binary? && e.op == if WordAt(stream, old(drawn)) % 2 == 1 then Shl else Shr
      ensures WordAt(stream, old(drawn) + 1) % 3 == 0 ==> e.left == ScalarLeaf(t, WordAt(stream, old(drawn) + 2))
      ensures NestsWithin(e, MAX_RVALUE_DEPTH - rvalueDepth)
      decreases SaturatingSub(MAX_RVALUE_DEPTH, rvalueDepth), 2
    {
      hide WordAt, ValueDrawn, ScalarLeaf;
      var leftward := NextBool();
      var left := GenOperand(t);
      var right := GenOperand(t);
      return Binary(if leftward then Shl else Shr, left, right);
    }

    method GenOperand(t: Type) returns (e: Expr)
      requires IsScalar(t)
      requires rvalueDepth < MAX_RVALUE_DEPTH
      modifies this`drawn, this`budget, this`rvalueDepth
      ensures Balanced() && HasType(e, t) && !e.Binary?
      ensures NestsWithin(e, MAX_RVALUE_DEPTH - rvalueDepth - 1)
      ensures match WordAt(stream, old(drawn)) % 3
        case 0 => e == ScalarLeaf(t, WordAt(stream, old(drawn) + 1)) && budget == old(budget)
        case 1 => e.Unary? && IsLeaf(e.operand) && budget == old(budget)
        case _ => exists inner ::
          e == ParenthesizeBinary(inner) && ValueDrawn(t, rvalueDepth + 1, WordAt(stream, old(drawn) + 1), old(budget), budget, inner)
      decreases SaturatingSub(MAX_RVALUE_DEPTH, rvalueDepth), 1
    {
      var word := NextU64();
      if word % 3 == 0 {
        e := GenLeafValue(t);
      } else if word % 3 == 1 {
        e := GenUnaryValue(t);
      } else {
        var inner := GenValue(t);
        return ParenthesizeBinary(inner);
      }
    }

    // ---- statements ----

    method GenBoolCondition() returns (e: Expr)
      modifies this`drawn
      ensures HasType(e, BoolType)
      ensures ConditionDrawn(e, stream, old(drawn)) && drawn == old(drawn) + ConditionWords(WordAt(stream, old(drawn)))
    {
      var word := NextU64();
      match word % 4
      case 0 => return Boolean(true);
      case 1 => return Boolean(false);
      case 2 =>
        var value := NextBool();
        return Unary(Not, Boolean(value));
      case _ => e := GenCmpValue();
    }

    method EmitSafeStatement(elements: seq<BlockItem>, allowControl: bool) returns (extended: seq<BlockItem>)
      requires typeDepth == 0
      modifies this
      ensures Balanced()
      ensures |extended| == |elements| + 1 && extended[..|elements|] == elements
      ensures SafeStatement(extended[|elements|], allowControl)
      ensures StatementDrawn(extended[|elements|], allowControl, old(budget), old(nameCounter), WordAt(stream, old(drawn)))
      ensures var (item, (t, next)) := (extended[|elements|], TypeAt(stream, old(drawn) + 1, 0));
        && (item.Variable? ==>
              item.ty == t && ValueDrawn(t, rvalueDepth + 1, WordAt(stream, next), old(budget), budget, item.initializer))
        && (item.Statement? && !ControlStatement(item) ==>
              ValueDrawn(t, rvalueDepth + 1, WordAt(stream, next), old(budget), budget, item.expr))
      ensures StatementCounters(extended[|elements|]) == Interval(old(nameCounter), nameCounter)
      ensures nameCounter <= old(nameCounter) + if allowControl then 2 else 1
      decreases allowControl, 0
    {
      hide WordAt, TypeAt;
      var word := NextU64();
      var roll := word % 100;
      if allowControl && roll < 28 && budget >= 6 {
        var control := GenControlStmt();
        return elements + [Statement(control)];
      } else if roll < 70 {
        var t := GenConcreteType();
        ConcreteIsConstructible(t, MAX_TYPE_DEPTH);
        var initializer := GenValue(t);
        var name := GenUniqueName("v");
        return elements + [Variable(name, t, initializer)];
      } else {
        var t := GenConcreteType();
        var value := GenValue(t);
        return elements + [Statement(value)];
      }
    }

    method GenControlStmt() returns (e: Expr)
      requires typeDepth == 0
      modifies this
      ensures Balanced()
      ensures ControlStatement(Statement(e)) && (e.While? <==> WordAt(stream, old(drawn)) % 2 == 1)
      ensures ConditionDrawn(e.condition, stream, old(drawn) + 1)
      ensures var next := old(drawn) + 1 + ConditionWords(WordAt(stream, old(drawn) + 1));
        var first := if e.While? then e.body else e.thenBlock;
        && (|first.elements| == WordAt(stream, next) % 2 || budget < 2)
        && (e.If? && WordAt(stream, next) % 2 == 0 ==> |e.elseBlock.elements| == WordAt(stream, next + 1) % 2 || budget < 2)
      ensures ExprCounters(e) == Interval(old(nameCounter), nameCounter) && nameCounter <= old(nameCounter) + 2
      decreases false, 2
    {
      var loop := NextBool();
      var condition := GenBoolCondition();
      if loop {
        var body := GenShallowBlock();
        return While(condition, body);
      } else {
        var thenBlock := GenShallowBlock();
        ghost var middle := nameCounter;
        var elseBlock := GenShallowBlock();
        IntervalsJoin(old(nameCounter), middle, nameCounter);
        return If(condition, thenBlock, elseBlock);
      }
    }

    method GenShallowBlock() returns (b: Block)
      requires typeDepth == 0
      modifies this
      ensures Balanced()
      ensures ShallowBlock(b)
      ensures |b.elements| == WordAt(stream, old(drawn)) % 2 || (|b.elements| == 0 && budget < 2)
      ensures if b.elements == [] then drawn == old(drawn) + 1
        else StatementDrawn(b.elements[0], false, old(budget), old(nameCounter), WordAt(stream, old(drawn) + 1))
      ensures BlockCounters(b) == Interval(old(nameCounter), nameCounter) && nameCounter <= old(nameCounter) + 1
      decreases false, 1
    {
      hide WordAt, TypeAt, PlainStatement, ValueDrawn;
      var elements: seq<BlockItem> := [];
      var count := GenIndex(2);
      for i := 0 to count
        invariant Balanced() && nameCounter <= old(nameCounter) + i && |elements| == i
        invariant forall k | 0 <= k < |elements| :: PlainStatement(elements[k])
        invariant if elements == [] then drawn == old(drawn) + 1 && budget == old(budget) && nameCounter == old(nameCounter)
          else StatementDrawn(elements[0], false, old(budget), old(nameCounter), WordAt(stream, old(drawn) + 1))
        invariant ElementCounters(elements) == Interval(old(nameCounter), nameCounter)
      {
        if budget < 2 {
          break;
        }
        ghost var before, middle := elements, nameCounter;
        elements := EmitSafeStatement(elements, false);
        CountersAppend(before, elements);
        IntervalsJoin(old(nameCounter), middle, nameCounter);
      }
      return Block(elements);
    }

    // ---- items ----

    method GenFunctionBody(t: Type) returns (b: Block)
      requires typeDepth == 0 && Constructible(t)
      modifies this
      ensures Balanced()
      ensures FunctionBody(b, t)
      ensures |b.elements| == 1 + WordAt(stream, old(drawn)) % 3 || (|b.elements| <= WordAt(stream, old(drawn)) % 3 && budget < 2)
      ensures |b.elements| > 1 ==> StatementDrawn(b.elements[0], true, old(budget), old(nameCounter), WordAt(stream, old(drawn) + 1))
      ensures |b.elements| == 1 && !IsUnit(t) ==>
        ValueDrawn(t, rvalueDepth + 1, WordAt(stream, old(drawn) + 1), old(budget), budget, b.elements[0].expr.result.value)
      ensures BlockCounters(b) == Interval(old(nameCounter), nameCounter) && nameCounter <= old(nameCounter) + 4
    {
      hide TypeOf, SafeStatement, Constructible, ElementCounters, StatementCounters, Interval;
      var elements: seq<BlockItem> := [];
      NoCounters(nameCounter);
      var count := GenIndex(3);
      for i := 0 to count
        invariant Balanced() && nameCounter <= old(nameCounter) + 2 * i && |elements| == i
        invariant forall k | 0 <= k < |elements| :: SafeStatement(elements[k], true)
        invariant if elements == [] then drawn == old(drawn) + 1 && budget == old(budget) && nameCounter == old(nameCounter)
          else StatementDrawn(elements[0], true, old(budget), old(nameCounter), WordAt(stream, old(drawn) + 1))
        invariant ElementCounters(elements) == Interval(old(nameCounter), nameCounter)
      {
        if budget < 2 {
          break;
        }
        ghost var before, middle := elements, nameCounter;
        elements := EmitSafeStatement(elements, true);
        CountersAppend(before, elements);
        IntervalsJoin(old(nameCounter), middle, nameCounter);
      }
      var last := Statement(Return(None));
      if !IsUnit(t) {
        var value := GenValue(t);
        last := Statement(Return(Some(value)));
      }
      NothingDrawn(elements, last);
      return Block(elements + [last]);
    }

    method SelectItemKind() returns (kind: ItemKind)
      modifies this`drawn
      ensures kind == Pick(ItemOptions(itemDepth), WordAt(stream, old(drawn))) && drawn == old(drawn) + 1
      ensures kind.ModuleItem? ==> itemDepth < MAX_ITEM_DEPTH
    {
      var options := [(30, FunctionItem), (22, StructItem), (16, EnumItem), (14, ConstItem), (10, TypeAliasItem)];
      if itemDepth < MAX_ITEM_DEPTH {
        options := options + [(8, ModuleItem)];
      }
      assert options == ItemOptions(itemDepth);
      ChosenIsOffered(options, WordAt(stream, drawn) % 0x1_0000_0000 % Total(options));
      kind := PickWeighted(options);
    }

    method GenItem() returns (item: Item)
      requires typeDepth == 0 && itemDepth <= MAX_ITEM_DEPTH
      modifies this
      ensures Balanced() && (old(budget) >= 2 ==> Thrifty())
      ensures WellFormed(item, MAX_ITEM_DEPTH - itemDepth)
      ensures ItemCounters(item) == Interval(old(nameCounter), nameCounter)
      ensures var kind := Pick(ItemOptions(itemDepth), WordAt(stream, old(drawn)));
        IsItem(if old(budget) < 3 || old(budget) < ItemCost(kind) then TypeAliasItem else kind, item)
      decreases budget, 1
    {
      hide WordAt;
      if budget < 3 {
        item := GenItemTypeAlias();
        return;
      }
      var kind := SelectItemKind();
      match kind
      case StructItem => item := GenItemStruct();
      case EnumItem => item := GenItemEnum();
      case ConstItem => item := GenItemVariable();
      case TypeAliasItem => item := GenItemTypeAlias();
      case ModuleItem => item := GenItemModule();
      case FunctionItem => item := GenItemFunction();
    }

    method GenItemMain() returns (item: Item)
      requires typeDepth == 0
      modifies this
      ensures Balanced() && nameCounter <= old(nameCounter) + 4
      ensures WellFormed(item, 0)
      ensures item.Function? && item.name == Fixed("main") && item.params == []
      ensures item.returnType == if WordAt(stream, old(drawn)) % 2 == 1 then Some(INT32) else None
      ensures ItemCounters(item) == Interval(old(nameCounter), nameCounter)
    {
      var integer := NextBool();
      var returnType := if integer then Some(INT32) else None;
      var body := GenFunctionBody(if integer then INT32 else UNIT);
      return Function(Fixed("main"), [], returnType, body);
    }

    method GenItemFunction() returns (item: Item)
      requires typeDepth == 0
      modifies this
      ensures Balanced() && (old(budget) >= 2 ==> Thrifty())
      ensures WellFormed(item, 0) && !item.Module?
      ensures ItemCounters(item) == Interval(old(nameCounter), nameCounter)
      ensures IsItem(if old(budget) < 10 then TypeAliasItem else FunctionItem, item)
      ensures old(budget) >= 10 ==>
        SignatureDrawn(item.params, item.returnType, stream, old(drawn), WordAt(stream, old(drawn)) % 4)
    {
      hide WellFormed, ItemCounters, BlockCounters, FunctionBody, Concrete, TypesAt, TypeAt, SignatureDrawn, WordAt;
      var affordable := SpendBudget(10);
      if !affordable {
        item := GenItemTypeAlias();
        return;
      }
      var name := GenUniqueName("fn");
      var paramCount := GenIndex(4);
      var params: seq<Param> := [];
      ghost var types: seq<Type> := [];
      NextType(stream, drawn, 0, 0);
      for i := 0 to paramCount
        invariant typeDepth == 0 && |params| == i
        invariant forall k | 0 <= k < i :: params[k].name == Indexed("a", k) && Declarable(params[k].ty)
        invariant (types, drawn) == TypesAt(stream, old(drawn) + 1, 0, i)
        invariant TypedBy(params, types)
        invariant nameCounter == old(nameCounter) + 1 && budget == old(budget) - 10
        invariant rvalueDepth == old(rvalueDepth) && itemDepth == old(itemDepth)
      {
        NextType(stream, old(drawn) + 1, 0, i);
        var t := GenConcreteType();
        types := types + [t];
        params := params + [Param(Indexed("a", i), t)];
      }
      ghost var next := drawn;
      var returnType: Option<Type> := None;
      var typed := NextBool();
      if typed {
        var t := GenConcreteType();
        ConcreteIsConstructible(t, MAX_TYPE_DEPTH);
        returnType := Some(t);
      }
      var body := GenFunctionBody(if returnType.Some? then returnType.value else UNIT);
      IntervalsJoin(old(nameCounter), old(nameCounter) + 1, nameCounter);
      SignatureFromTypes(params, returnType, stream, old(drawn), types, next);
      FunctionOf(name, params, returnType, body);
      return Function(name, params, returnType, body);
    }

    method GenItemStruct() returns (item: Item)
      requires typeDepth == 0
      modifies this
      ensures Balanced() && (old(budget) >= 2 ==> Thrifty())
      ensures WellFormed(item, 0) && !item.Module?
      ensures ItemCounters(item) == Interval(old(nameCounter), nameCounter)
      ensures IsItem(if old(budget) < 5 then TypeAliasItem else StructItem, item)
      ensures old(budget) >= 5 ==>
        TypedBy(item.fields, TypesAt(stream, old(drawn) + 1, 0, 1 + WordAt(stream, old(drawn)) % 4).0)
    {
      hide WordAt, TypeAt, TypesAt, Concrete;
      var affordable := SpendBudget(5);
      if !affordable {
        item := GenItemTypeAlias();
        return;
      }
      var name := GenUniqueName("Struct");
      var more := GenIndex(4);
      var fieldCount := 1 + more;
      var fields: seq<Param> := [];
      ghost var types: seq<Type> := [];
      NextType(stream, drawn, 0, 0);
      for i := 0 to fieldCount
        invariant typeDepth == 0 && |fields| == i
        invariant forall k | 0 <= k < i :: fields[k].name == Indexed("field", k) && Declarable(fields[k].ty)
        invariant (types, drawn) == TypesAt(stream, old(drawn) + 1, 0, i) && TypedBy(fields, types)
        invariant nameCounter == old(nameCounter) + 1 && budget == old(budget) - 5
        invariant rvalueDepth == old(rvalueDepth) && itemDepth == old(itemDepth)
      {
        NextType(stream, old(drawn) + 1, 0, i);
        var t := GenConcreteType();
        types := types + [t];
        fields := fields + [Param(Indexed("field", i), t)];
      }
      return Struct(name, fields);
    }

    method GenItemEnum() returns (item: Item)
      requires typeDepth == 0
      modifies this
      ensures Balanced() && (old(budget) >= 2 ==> Thrifty())
      ensures WellFormed(item, 0) && !item.Module?
      ensures ItemCounters(item) == Interval(old(nameCounter), nameCounter)
      ensures IsItem(if old(budget) < 5 then TypeAliasItem else EnumItem, item)
      ensures old(budget) >= 5 ==>
        var payloads := PayloadsAt(stream, old(drawn) + 1, 2 + WordAt(stream, old(drawn)) % 3).0;
        && VariantsDrawn(item.variants, payloads)
        && (item.variants[0].payload.Some? <==> WordAt(stream, old(drawn) + 1) % 2 == 1)
    {
      hide WellFormed, VariantsDrawn, WordAt, TypeAt, PayloadsAt, Concrete;
      var affordable := SpendBudget(5);
      if !affordable {
        item := GenItemTypeAlias();
        return;
      }
      var name := GenUniqueName("Enum");
      var more := GenIndex(3);
      var variantCount := 2 + more;
      var variants: seq<Variant> := [];
      ghost var payloads: seq<Option<Type>> := [];
      NextPayload(stream, drawn, 0);
      assert VariantsDrawn(variants, payloads) by { NoVariants(); }
      for i := 0 to variantCount
        invariant typeDepth == 0 && |variants| == i
        invariant forall k | 0 <= k < |payloads| :: DeclarablePayload(payloads[k])
        invariant (payloads, drawn) == PayloadsAt(stream, old(drawn) + 1, i) && VariantsDrawn(variants, payloads)
        invariant i > 0 ==> payloads != [] && (payloads[0].Some? <==> WordAt(stream, old(drawn) + 1) % 2 == 1)
        invariant nameCounter == old(nameCounter) + 1 && budget == old(budget) - 5
        invariant rvalueDepth == old(rvalueDepth) && itemDepth == old(itemDepth)
      {
        NextPayload(stream, old(drawn) + 1, i);
        var payload: Option<Type> := None;
        var carries := NextBool();
        if carries {
          var t := GenConcreteType();
          payload := Some(t);
        }
        NextVariant(variants, payloads, payload);
        payloads := payloads + [payload];
        variants := variants + [Variant(Indexed("Variant", i), payload)];
      }
      EnumOf(name, variants, payloads);
      return Enum(name, variants);
    }

    method GenItemVariable() returns (item: Item)
      requires typeDepth == 0
      modifies this
      ensures Balanced() && (old(budget) >= 2 ==> Thrifty())
      ensures WellFormed(item, 0) && !item.Module?
      ensures ItemCounters(item) == Interval(old(nameCounter), nameCounter)
      ensures IsItem(if old(budget) < 3 then TypeAliasItem else ConstItem, item)
      ensures old(budget) >= 3 ==> item.ty == TypeAt(stream, old(drawn), 0).0 && IsLeaf(item.initializer)
    {
      var affordable := SpendBudget(3);
      if !affordable {
        item := GenItemTypeAlias();
        return;
      }
      var t := GenConcreteType();
      ConcreteIsConstructible(t, MAX_TYPE_DEPTH);
      var initializer := GenLeafValue(t);
      var name := GenUniqueName("CONST");
      return Const(name, t, initializer);
    }

    method GenItemTypeAlias() returns (item: Item)
      requires typeDepth == 0
      modifies this
      ensures Balanced() && (old(budget) >= 2 ==> Thrifty())
      ensures WellFormed(item, 0) && !item.Module?
      ensures ItemCounters(item) == Interval(old(nameCounter), nameCounter)
      ensures IsItem(TypeAliasItem, item) && item.ty == TypeAt(stream, old(drawn), 0).0
      ensures budget == SaturatingSub(old(budget), 2)
    {
      var affordable := SpendBudget(2);
      if !affordable {
        budget := 0;
      }
      var t := GenConcreteType();
      var name := GenUniqueName("Type");
      return TypeAlias(name, t);
    }

    method GenItemModule() returns (item: Item)
      requires typeDepth == 0 && itemDepth < MAX_ITEM_DEPTH
      modifies this
      ensures Balanced() && (old(budget) >= 2 ==> Thrifty())
      ensures WellFormed(item, MAX_ITEM_DEPTH - itemDepth)
      ensures ItemCounters(item) == Interval(old(nameCounter), nameCounter)
      ensures IsItem(if old(budget) < 4 then TypeAliasItem else ModuleItem, item)
      ensures old(budget) >= 4 ==>
        var count := 1 + WordAt(stream, old(drawn)) % 3;
        |item.items| == count || (|item.items| < count && budget < 3)
      decreases budget, 0
    {
      hide WellFormed, ItemCounters, ItemsCounters, Interval, CounterOf;
      var affordable := SpendBudget(4);
      if !affordable {
        item := GenItemTypeAlias();
        WellFormedDeeper(item, 0, MAX_ITEM_DEPTH - itemDepth);
        return;
      }
      itemDepth := itemDepth + 1;
      var more := GenIndex(3);
      var itemCount := 1 + more;
      var items: seq<Item> := [];
      NoItemCounters(nameCounter);
      for i := 0 to itemCount
        invariant typeDepth == 0 && rvalueDepth == old(rvalueDepth) && itemDepth == old(itemDepth) + 1
        invariant budget <= old(budget) - 4 && nameCounter >= old(nameCounter) && |items| == i
        invariant nameCounter + budget + 4 <= old(nameCounter) + old(budget)
        invariant forall k | 0 <= k < |items| :: WellFormed(items[k], MAX_ITEM_DEPTH - itemDepth)
        invariant ItemsCounters(items) == Interval(old(nameCounter), nameCounter)
      {
        if budget < 3 {
          break;
        }
        ghost var middle := nameCounter;
        var inner := GenItem();
        IntervalsJoin(old(nameCounter), middle, nameCounter);
        ItemsCountersAppend(items, inner);
        items := items + [inner];
      }
      assert itemDepth >= 1;
      itemDepth := SaturatingSub(itemDepth, 1);
      ghost var middle := nameCounter;
      var name := GenUniqueName("module");
      IntervalsJoin(old(nameCounter), middle, nameCounter);
      ModuleOf(name, items, MAX_ITEM_DEPTH - itemDepth - 1);
      return Module(name, items);
    }

    /** A whole program: a public module that starts with `main`. Its generated names are numbered from the counter's
        start without gaps or repetitions, too few to wrap a 64-bit counter, and all different as texts. */
    method GenProgram() returns (program: Item)
      requires AtRest()
      modifies this
      ensures AtRest() && budget <= old(budget)
      ensures program.Module? && WellFormed(program, MAX_ITEM_DEPTH + 1)
      ensures program.items != []
        && program.items[0].Function? && program.items[0].name == Fixed("main") && program.items[0].params == []
      ensures old(nameCounter) <= nameCounter <= old(nameCounter) + old(budget) + 4
      ensures ItemCounters(program) == Interval(old(nameCounter), nameCounter)
      ensures TextsDistinct(program)
      ensures exists n ::
        && 1 <= n <= SaturatingSub(config.functionCount, 1) + 1
        && LeadingFunctions(program.items, n)
        && (n == SaturatingSub(config.functionCount, 1) + 1 || budget < 10)
        && |program.items| - n <= 6 && (|program.items| - n >= 2 || budget < 3)
    {
      hide TextsDistinct, WellFormed, ItemCounters, ItemsCounters, Interval;
      var main := GenItemMain();
      var items := [main];
      WellFormedDeeper(main, 0, MAX_ITEM_DEPTH);
      SingleItemCounters(main);
      var extraFunctions := SaturatingSub(config.functionCount, 1);
      while extraFunctions > 0 && budget >= 10
        invariant AtRest() && budget <= old(budget) && nameCounter >= old(nameCounter)
        invariant nameCounter + budget <= old(nameCounter) + old(budget) + 4
        invariant items != [] && items[0] == main
        invariant forall k | 0 <= k < |items| :: WellFormed(items[k], MAX_ITEM_DEPTH)
        invariant ItemsCounters(items) == Interval(old(nameCounter), nameCounter)
        invariant |items| + extraFunctions == SaturatingSub(config.functionCount, 1) + 1
        invariant LeadingFunctions(items, |items|)
        decreases extraFunctions
      {
        ghost var middle := nameCounter;
        var item := GenItemFunction();
        WellFormedDeeper(item, 0, MAX_ITEM_DEPTH);
        IntervalsJoin(old(nameCounter), middle, nameCounter);
        ItemsCountersAppend(items, item);
        items := items + [item];
        extraFunctions := extraFunctions - 1;
      }
      ghost var n := |items|;
      ghost var left := budget;
      var more := GenIndex(5);
      var extraCeiling := 2 + more;
      for i := 0 to extraCeiling
        invariant AtRest() && budget <= old(budget) && nameCounter >= old(nameCounter)
        invariant nameCounter + budget <= old(nameCounter) + old(budget) + 4
        invariant items != [] && items[0] == main
        invariant forall k | 0 <= k < |items| :: WellFormed(items[k], MAX_ITEM_DEPTH)
        invariant |items| == n + i && LeadingFunctions(items, n) && budget <= left
        invariant ItemsCounters(items) == Interval(old(nameCounter), nameCounter)
      {
        if budget < 3 {
          break;
        }
        ghost var middle := nameCounter;
        var item := GenItem();
        IntervalsJoin(old(nameCounter), middle, nameCounter);
        ItemsCountersAppend(items, item);
        items := items + [item];
      }
      ModuleOf(Fixed("testcase"), items, MAX_ITEM_DEPTH);
      program := Module(Fixed("testcase"), items);
      ProgramTextsDistinct(program, old(nameCounter), nameCounter);
    }
  }
}
