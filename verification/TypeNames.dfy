/** Mangling of types: one tag letter, then self-delimiting parts. */
module TypeNames {
  import opened Wrappers
  import opened Text
  import opened Segments

  type u32 = x: int | 0 <= x <= U32_MAX
  type NonZeroU32 = x: int | 1 <= x <= U32_MAX witness 1

  datatype Basic =
    | Never | Unit | Bool | U8 | U16 | U32 | U64 | U128 | USize | I8 | I16 | I32 | I64 | I128 | F32 | F64
    | InferredFloat | InferredInteger | Range | Str

  datatype NominalKind = Struct | Enum | TypeAlias
  datatype PointerKind = Reference | SliceRef | Pointer | SlicePtr
  datatype Lifetime = StaticLifetime | GcLifetime | ThreadLocalLifetime | TaskLocalLifetime | InferredLifetime

  /** Stands for a part that no encoding looks at: the rest of a definition, a bound, an unevaluated expression.
      Zero is the default the decoder fills in. */
  type Detail = nat

  /** The names of function parameters and of trailing named arguments stand beside the types they belong to. */
  datatype Type =
    | Basic(basic: Basic)
    | Array(element: Type, length: u32)
    | UnresolvedArray(element: Type, lengthExpression: Detail)
    | Tuple(elements: seq<Type>)
    | Nominal(nominal: NominalKind, name: bytes, definition: Detail)
    | Refine(base: Type, min: Detail, max: Detail)
    | UnresolvedRefine(base: Type, minExpression: Detail, maxExpression: Detail)
    | Function(attributes: Detail, names: seq<bytes>, params: seq<Type>, result: Type)
    | Indirect(pointer: PointerKind, lifetime: Lifetime, exclusive: bool, mutable: bool, to: Type)
    | TraitObject(bounds: Detail)
    | Parameterized(base: Type, args: seq<Type>, names: seq<bytes>)
    | GenericParam(index: u32, paramName: bytes)
    | Inferred(id: NonZeroU32, variableName: Option<bytes>)

  const TAG_ARRAY: byte := 81 // Q
  const TAG_TUPLE: byte := 82 // R
  const TAG_REFINE: byte := 86 // V
  const TAG_FUNCTION: byte := 87 // W
  const TAG_TRAIT_OBJECT: byte := 98 // b
  const TAG_PARAMETERIZED: byte := 99 // c
  const TAG_GENERIC_PARAM: byte := 100 // d
  const TAG_INFERRED: byte := 101 // e

  /** A to P for the concrete scalars; f, g, h and i for the last four. */
  function BasicTag(b: Basic): byte {
    match b
    case Never => 65 case Unit => 66 case Bool => 67 case U8 => 68
    case U16 => 69 case U32 => 70 case U64 => 71 case U128 => 72
    case USize => 73 case I8 => 74 case I16 => 75 case I32 => 76
    case I64 => 77 case I128 => 78 case F32 => 79 case F64 => 80
    case InferredFloat => 102 case InferredInteger => 103 case Range => 104 case Str => 105
  }

  /** The reverse, except that no letter is read as the string type. */
  function TagBasic(tag: byte): Option<Basic> {
    match tag
    case 65 => Some(Never) case 66 => Some(Unit) case 67 => Some(Bool) case 68 => Some(U8)
    case 69 => Some(U16) case 70 => Some(U32) case 71 => Some(U64) case 72 => Some(U128)
    case 73 => Some(USize) case 74 => Some(I8) case 75 => Some(I16) case 76 => Some(I32)
    case 77 => Some(I64) case 78 => Some(I128) case 79 => Some(F32) case 80 => Some(F64)
    case 102 => Some(InferredFloat) case 103 => Some(InferredInteger) case 104 => Some(Range)
    case _ => None
  }

  /** S, T and U. */
  function NominalTag(k: NominalKind): byte {
    match k case Struct => 83 case Enum => 84 case TypeAlias => 85
  }

  function TagNominal(tag: byte): Option<NominalKind> {
    match tag case 83 => Some(Struct) case 84 => Some(Enum) case 85 => Some(TypeAlias) case _ => None
  }

  /** X, Y, Z and a. */
  function PointerTag(k: PointerKind): byte {
    match k case Reference => 88 case SliceRef => 89 case Pointer => 90 case SlicePtr => 97
  }

  function TagPointer(tag: byte): Option<PointerKind> {
    match tag
    case 88 => Some(Reference) case 89 => Some(SliceRef) case 90 => Some(Pointer) case 97 => Some(SlicePtr) case _ => None
  }

  /** The digits 0 to 3. */
  function RefFlags(exclusive: bool, mutable: bool): byte {
    match (exclusive, mutable)
    case (false, false) => 48
    case (false, true) => 49
    case (true, false) => 50
    case (true, true) => 51
  }

  function ReadRefFlags(input: bytes): (r: Reply<(bool, bool)>)
    ensures |r.rest| <= |input|
  {
    if input == [] then Failed(Malformed, input)
    else
      match input[0]
      case 48 => Done((false, false), input[1..])
      case 49 => Done((false, true), input[1..])
      case 50 => Done((true, false), input[1..])
      case 51 => Done((true, true), input[1..])
      case _ => Failed(Malformed, input[1..])
  }

  // ---------------------------------------------------------------------------
  // Printing
  // ---------------------------------------------------------------------------

  function MangleType(codec: Codec, t: Type): (s: bytes)
    ensures s != []
  {
    match t
    case Basic(b) => [BasicTag(b)]
    case Array(element, length) => [TAG_ARRAY] + MangleType(codec, element) + Counted(length)
    case UnresolvedArray(element, _) => [TAG_ARRAY] + MangleType(codec, element) + Counted(0)
    case Tuple(elements) => [TAG_TUPLE] + Counted(|elements|) + MangleTypes(codec, elements)
    case Nominal(kind, name, _) => [NominalTag(kind)] + MangleString(codec, name)
    case Refine(base, _, _) => [TAG_REFINE] + MangleType(codec, base)
    case UnresolvedRefine(base, _, _) => [TAG_REFINE] + MangleType(codec, base)
    case Function(_, _, params, result) =>
      [TAG_FUNCTION] + Counted(|params|) + MangleTypes(codec, params) + MangleType(codec, result)
    case Indirect(kind, _, exclusive, mutable, to) =>
      [PointerTag(kind)] + [RefFlags(exclusive, mutable)] + MangleType(codec, to)
    case TraitObject(_) => [TAG_TRAIT_OBJECT]
    case Parameterized(base, args, _) =>
      [TAG_PARAMETERIZED] + MangleType(codec, base) + Counted(|args|) + MangleTypes(codec, args)
    case GenericParam(index, _) => [TAG_GENERIC_PARAM] + Counted(index)
    case Inferred(id, _) => [TAG_INFERRED] + Counted(id)
  }

  function MangleTypes(codec: Codec, ts: seq<Type>): bytes {
    if ts == [] then [] else MangleType(codec, ts[0]) + MangleTypes(codec, ts[1..])
  }

  // ---------------------------------------------------------------------------
  // What an encoding keeps
  // ---------------------------------------------------------------------------

  /** The type with everything replaced by a default that its encoding does not mention. */
  function Erase(t: Type): Type {
    match t
    case Basic(_) => t
    case Array(element, length) => Array(Erase(element), length)
    case UnresolvedArray(element, _) => Array(Erase(element), 0)
    case Tuple(elements) => Tuple(EraseAll(elements))
    case Nominal(kind, name, _) => Nominal(kind, name, 0)
    case Refine(base, _, _) => Refine(Erase(base), 0, 0)
    case UnresolvedRefine(base, _, _) => Refine(Erase(base), 0, 0)
    case Function(_, _, params, result) => Function(0, Blanks(|params|), EraseAll(params), Erase(result))
    case Indirect(kind, _, exclusive, mutable, to) => Indirect(kind, InferredLifetime, exclusive, mutable, Erase(to))
    case TraitObject(_) => TraitObject(0)
    case Parameterized(base, args, _) => Parameterized(Erase(base), EraseAll(args), [])
    case GenericParam(index, _) => GenericParam(index, [])
    case Inferred(id, _) => Inferred(id, None)
  }

  function EraseAll(ts: seq<Type>): (r: seq<Type>)
    ensures |r| == |ts|
  {
    if ts == [] then [] else [Erase(ts[0])] + EraseAll(ts[1..])
  }

  function Blanks(n: nat): seq<bytes> {
    seq(n, i => [])
  }

  /** No string type anywhere an encoding looks, and no list longer than a 32-bit count. */
  predicate Encodable(t: Type) {
    match t
    case Basic(b) => b != Str
    case Array(element, _) => Encodable(element)
    case UnresolvedArray(element, _) => Encodable(element)
    case Tuple(elements) => |elements| <= U32_MAX && AllEncodable(elements)
    case Refine(base, _, _) => Encodable(base)
    case UnresolvedRefine(base, _, _) => Encodable(base)
    case Function(_, _, params, result) => |params| <= U32_MAX && AllEncodable(params) && Encodable(result)
    case Indirect(_, _, _, _, to) => Encodable(to)
    case Parameterized(base, args, _) => Encodable(base) && |args| <= U32_MAX && AllEncodable(args)
    case _ => true
  }

  predicate AllEncodable(ts: seq<Type>) {
    ts == [] || (Encodable(ts[0]) && AllEncodable(ts[1..]))
  }

  /** Every name in the type is a string whose segments are not empty. */
  predicate WellNamed(t: Type) {
    match t
    case Array(element, _) => WellNamed(element)
    case UnresolvedArray(element, _) => WellNamed(element)
    case Tuple(elements) => AllWellNamed(elements)
    case Nominal(_, name, _) => Utf8(name) && |name| <= LONGEST && NonEmptySegments(name)
    case Refine(base, _, _) => WellNamed(base)
    case UnresolvedRefine(base, _, _) => WellNamed(base)
    case Function(_, _, params, result) => AllWellNamed(params) && WellNamed(result)
    case Indirect(_, _, _, _, to) => WellNamed(to)
    case Parameterized(base, args, _) => WellNamed(base) && AllWellNamed(args)
    case _ => true
  }

  predicate AllWellNamed(ts: seq<Type>) {
    ts == [] || (WellNamed(ts[0]) && AllWellNamed(ts[1..]))
  }

  /** Every name in the type is a string that its own following text delimits, when `r` follows the whole type. */
  predicate Framed(codec: Codec, t: Type, r: bytes) {
    match t
    case Array(element, length) => Framed(codec, element, Counted(length) + r)
    case UnresolvedArray(element, _) => Framed(codec, element, Counted(0) + r)
    case Tuple(elements) => AllFramed(codec, elements, r)
    case Nominal(_, name, _) => Utf8(name) && |name| <= LONGEST && Delimited(codec, Split(name), r)
    case Refine(base, _, _) => Framed(codec, base, r)
    case UnresolvedRefine(base, _, _) => Framed(codec, base, r)
    case Function(_, _, params, result) =>
      AllFramed(codec, params, MangleType(codec, result) + r) && Framed(codec, result, r)
    case Indirect(_, _, _, _, to) => Framed(codec, to, r)
    case Parameterized(base, args, _) =>
      Framed(codec, base, Counted(|args|) + MangleTypes(codec, args) + r) && AllFramed(codec, args, r)
    case _ => true
  }

  predicate AllFramed(codec: Codec, ts: seq<Type>, r: bytes) {
    ts == [] || (Framed(codec, ts[0], MangleTypes(codec, ts[1..]) + r) && AllFramed(codec, ts[1..], r))
  }

  lemma {:induction false} WellNamedIsFramed(codec: Codec, t: Type, r: bytes)
    requires WellNamed(t)
    ensures Framed(codec, t, r)
  {
    hide Utf8, Delimited, MangleString, Split;
    match t
    case Array(element, length) => WellNamedIsFramed(codec, element, Counted(length) + r);
    case UnresolvedArray(element, _) => WellNamedIsFramed(codec, element, Counted(0) + r);
    case Tuple(elements) => AllWellNamedIsFramed(codec, elements, r);
    case Nominal(_, name, _) => NonEmptyIsDelimited(codec, Split(name), r);
    case Refine(base, _, _) => WellNamedIsFramed(codec, base, r);
    case UnresolvedRefine(base, _, _) => WellNamedIsFramed(codec, base, r);
    case Function(_, _, params, result) =>
      AllWellNamedIsFramed(codec, params, MangleType(codec, result) + r);
      WellNamedIsFramed(codec, result, r);
    case Indirect(_, _, _, _, to) => WellNamedIsFramed(codec, to, r);
    case Parameterized(base, args, _) =>
      WellNamedIsFramed(codec, base, Counted(|args|) + MangleTypes(codec, args) + r);
      AllWellNamedIsFramed(codec, args, r);
    case _ =>
  }

  lemma {:induction false} AllWellNamedIsFramed(codec: Codec, ts: seq<Type>, r: bytes)
    requires AllWellNamed(ts)
    ensures AllFramed(codec, ts, r)
  {
    if ts != [] {
      WellNamedIsFramed(codec, ts[0], MangleTypes(codec, ts[1..]) + r);
      AllWellNamedIsFramed(codec, ts[1..], r);
    }
  }

  // ---------------------------------------------------------------------------
  // Reading
  // ---------------------------------------------------------------------------

  /** Reads one type and leaves the cursor behind it. */
  function DemangleType(codec: Codec, input: bytes, depth: nat): (r: Reply<Type>)
    ensures |r.rest| <= |input| && (r.Done? ==> |r.rest| < |input|)
    decreases |input|, 0
  {
    if input == [] then Failed(Malformed, input)
    else
      var tag, rest := input[0], input[1..];
      if TagBasic(tag).Some? then Done(Basic(TagBasic(tag).value), rest)
      else if TagNominal(tag).Some? then DemangleNominal(codec, TagNominal(tag).value, rest, depth)
      else if TagPointer(tag).Some? then DemangleIndirect(codec, TagPointer(tag).value, rest, depth)
      else if tag == TAG_ARRAY then DemangleArray(codec, rest, depth)
      else if tag == TAG_TUPLE then DemangleTuple(codec, rest, depth)
      else if tag == TAG_REFINE then DemangleRefine(codec, rest, depth)
      else if tag == TAG_FUNCTION then DemangleFunction(codec, rest, depth)
      else if tag == TAG_TRAIT_OBJECT then Done(TraitObject(0), rest)
      else if tag == TAG_PARAMETERIZED then DemangleParameterized(codec, rest, depth)
      else if tag == TAG_GENERIC_PARAM then DemangleGenericParam(rest)
      else if tag == TAG_INFERRED then DemangleInferred(rest)
      else Failed(Malformed, rest)
  }

  function Failing<T, U>(r: Reply<T>): Reply<U>
    requires r.Failed?
  {
    Failed(r.error, r.rest)
  }

  function DemangleNominal(codec: Codec, kind: NominalKind, input: bytes, depth: nat): (r: Reply<Type>)
    ensures |r.rest| <= |input|
  {
    var name := DemangleString(codec, input, depth);
    if name.Failed? then Failing(name) else Done(Nominal(kind, name.value, 0), name.rest)
  }

  function DemangleGenericParam(input: bytes): (r: Reply<Type>)
    ensures |r.rest| <= |input|
  {
    var index := ReadCount(input, U32_MAX);
    if index.Failed? then Failing(index) else Done(GenericParam(index.value, []), index.rest)
  }

  function DemangleInferred(input: bytes): (r: Reply<Type>)
    ensures |r.rest| <= |input|
  {
    var id := ReadCount(input, U32_MAX);
    if id.Failed? then Failing(id)
    else if id.value == 0 then Failed(Malformed, id.rest)
    else Done(Inferred(id.value, None), id.rest)
  }

  function DemangleIndirect(codec: Codec, kind: PointerKind, input: bytes, depth: nat): (r: Reply<Type>)
    ensures |r.rest| <= |input|
    decreases |input|, 1
  {
    var flags := ReadRefFlags(input);
    if flags.Failed? then Failing(flags)
    else
      var to := DemangleType(codec, flags.rest, depth);
      if to.Failed? then to
      else Done(Indirect(kind, InferredLifetime, flags.value.0, flags.value.1, to.value), to.rest)
  }

  function DemangleArray(codec: Codec, input: bytes, depth: nat): (r: Reply<Type>)
    ensures |r.rest| <= |input|
    decreases |input|, 1
  {
    var element := DemangleType(codec, input, depth);
    if element.Failed? then element
    else
      var length := ReadCount(element.rest, U32_MAX);
      if length.Failed? then Failing(length) else Done(Array(element.value, length.value), length.rest)
  }

  function DemangleRefine(codec: Codec, input: bytes, depth: nat): (r: Reply<Type>)
    ensures |r.rest| <= |input|
    decreases |input|, 1
  {
    var base := DemangleType(codec, input, depth);
    if base.Failed? then base else Done(Refine(base.value, 0, 0), base.rest)
  }

  function DemangleTuple(codec: Codec, input: bytes, depth: nat): (r: Reply<Type>)
    ensures |r.rest| <= |input|
    decreases |input|, 1
  {
    var count := ReadCount(input, U32_MAX);
    if count.Failed? then Failing(count)
    else
      var elements := DemangleTypes(codec, count.rest, count.value, depth);
      if elements.Failed? then Failing(elements) else Done(Tuple(elements.value), elements.rest)
  }

  function DemangleFunction(codec: Codec, input: bytes, depth: nat): (r: Reply<Type>)
    ensures |r.rest| <= |input|
    decreases |input|, 1
  {
    var count := ReadCount(input, U32_MAX);
    if count.Failed? then Failing(count)
    else
      var params := DemangleTypes(codec, count.rest, count.value, depth);
      if params.Failed? then Failing(params)
      else
        var result := DemangleType(codec, params.rest, depth);
        if result.Failed? then result
        else Done(Function(0, Blanks(count.value), params.value, result.value), result.rest)
  }

  function DemangleParameterized(codec: Codec, input: bytes, depth: nat): (r: Reply<Type>)
    ensures |r.rest| <= |input|
    decreases |input|, 1
  {
    var base := DemangleType(codec, input, depth);
    if base.Failed? then base
    else
      var count := ReadCount(base.rest, U32_MAX);
      if count.Failed? then Failing(count)
      else
        var args := DemangleTypes(codec, count.rest, count.value, depth);
        if args.Failed? then Failing(args) else Done(Parameterized(base.value, args.value, []), args.rest)
  }

  function DemangleTypes(codec: Codec, input: bytes, count: nat, depth: nat): (r: Reply<seq<Type>>)
    ensures |r.rest| <= |input| && (r.Done? ==> |r.value| == count)
    decreases |input|, 2
  {
    if count == 0 then Done([], input)
    else
      var head := DemangleType(codec, input, depth);
      if head.Failed? then Failing(head)
      else
        var tail := DemangleTypes(codec, head.rest, count - 1, depth);
        if tail.Failed? then tail else Done([head.value] + tail.value, tail.rest)
  }

  // ---------------------------------------------------------------------------
  // Round trip
  // ---------------------------------------------------------------------------

  /** What reading a printed type must give: the erased type and the rest, or a syntax error. */
  predicate ReadsBack(reply: Reply<Type>, t: Type, r: bytes) {
    if Encodable(t) then reply == Done(Erase(t), r) else reply.Failed? && reply.error == Malformed
  }

  predicate AllReadBack(reply: Reply<seq<Type>>, ts: seq<Type>, r: bytes) {
    if AllEncodable(ts) then reply == Done(EraseAll(ts), r) else reply.Failed? && reply.error == Malformed
  }

  /** Reading a printed type in front of any text gives the erased type and that text, untouched, if and only if the
      type is encodable; otherwise it is an error. */
  lemma {:induction false} TypeRoundTrip(codec: Codec, t: Type, r: bytes, depth: nat)
    requires Lossless(codec) && depth >= 1 && Framed(codec, t, r)
    ensures ReadsBack(DemangleType(codec, MangleType(codec, t) + r, depth), t, r)
    decreases t
  {
    hide Lossless, Utf8, Delimited, Split, Counted, Decimal, ReadsBack, Erase, Encodable, MangleType, MangleTypes,
      DemangleType;
    match t
    case Basic(b) => BasicRoundTrip(codec, b, r, depth);
    case Array(element, length) =>
      TypeRoundTrip(codec, element, Counted(length) + r, depth);
      ArrayRoundTrip(codec, t, r, depth);
    case UnresolvedArray(element, _) =>
      TypeRoundTrip(codec, element, Counted(0) + r, depth);
      ArrayRoundTrip(codec, t, r, depth);
    case Tuple(elements) =>
      TypesRoundTrip(codec, elements, r, depth);
      TupleRoundTrip(codec, elements, r, depth);
    case Nominal(_, _, _) => NominalRoundTrip(codec, t, r, depth);
    case Refine(base, _, _) =>
      TypeRoundTrip(codec, base, r, depth);
      RefineRoundTrip(codec, t, r, depth);
    case UnresolvedRefine(base, _, _) =>
      TypeRoundTrip(codec, base, r, depth);
      RefineRoundTrip(codec, t, r, depth);
    case Function(_, _, params, result) =>
      TypesRoundTrip(codec, params, MangleType(codec, result) + r, depth);
      TypeRoundTrip(codec, result, r, depth);
      FunctionRoundTrip(codec, t, r, depth);
    case Indirect(_, _, _, _, to) =>
      TypeRoundTrip(codec, to, r, depth);
      IndirectRoundTrip(codec, t, r, depth);
    case Parameterized(base, args, _) =>
      TypeRoundTrip(codec, base, Counted(|args|) + MangleTypes(codec, args) + r, depth);
      TypesRoundTrip(codec, args, r, depth);
      ParameterizedRoundTrip(codec, t, r, depth);
    case _ => LeafRoundTrip(codec, t, r, depth);
  }

  lemma {:induction false} TypesRoundTrip(codec: Codec, ts: seq<Type>, r: bytes, depth: nat)
    requires Lossless(codec) && depth >= 1 && AllFramed(codec, ts, r)
    ensures AllReadBack(DemangleTypes(codec, MangleTypes(codec, ts) + r, |ts|, depth), ts, r)
    decreases ts
  {
    hide Lossless, Framed, DemangleType, MangleType, Erase, Encodable;
    if ts == [] {
      assert MangleTypes(codec, ts) + r == r;
    } else {
      var following := MangleTypes(codec, ts[1..]) + r;
      assert MangleTypes(codec, ts) + r == MangleType(codec, ts[0]) + following;
      TypeRoundTrip(codec, ts[0], following, depth);
      TypesRoundTrip(codec, ts[1..], r, depth);
    }
  }

  /** The tag letter alone decides which reader runs. */
  lemma {:induction false} TagDispatch(codec: Codec, tag: byte, rest: bytes, depth: nat)
    ensures var r := DemangleType(codec, [tag] + rest, depth);
      && (TagNominal(tag).Some? ==> r == DemangleNominal(codec, TagNominal(tag).value, rest, depth))
      && (TagPointer(tag).Some? ==> r == DemangleIndirect(codec, TagPointer(tag).value, rest, depth))
      && (tag == TAG_ARRAY ==> r == DemangleArray(codec, rest, depth))
      && (tag == TAG_TUPLE ==> r == DemangleTuple(codec, rest, depth))
      && (tag == TAG_REFINE ==> r == DemangleRefine(codec, rest, depth))
      && (tag == TAG_FUNCTION ==> r == DemangleFunction(codec, rest, depth))
      && (tag == TAG_PARAMETERIZED ==> r == DemangleParameterized(codec, rest, depth))
      && (tag == TAG_TRAIT_OBJECT ==> r == Done(TraitObject(0), rest))
      && (tag == TAG_GENERIC_PARAM ==> r == DemangleGenericParam(rest))
      && (tag == TAG_INFERRED ==> r == DemangleInferred(rest))
  {
    hide DemangleNominal, DemangleIndirect, DemangleArray, DemangleTuple, DemangleRefine, DemangleFunction,
      DemangleParameterized, DemangleGenericParam, DemangleInferred;
    assert ([tag] + rest)[1..] == rest;
  }

  lemma {:induction false} BasicRoundTrip(codec: Codec, b: Basic, r: bytes, depth: nat)
    ensures ReadsBack(DemangleType(codec, MangleType(codec, Basic(b)) + r, depth), Basic(b), r)
  {
    assert TagBasic(BasicTag(b)) == if b == Str then None else Some(b);
    assert ([BasicTag(b)] + r)[1..] == r;
  }

  lemma {:induction false} LeafRoundTrip(codec: Codec, t: Type, r: bytes, depth: nat)
    requires t.TraitObject? || t.GenericParam? || t.Inferred?
    ensures ReadsBack(DemangleType(codec, MangleType(codec, t) + r, depth), t, r)
  {
    hide ReadCount, Counted, DemangleType;
    match t
    case TraitObject(_) => TagDispatch(codec, TAG_TRAIT_OBJECT, r, depth);
    case GenericParam(index, _) =>
      ReadPrinted(index, r, U32_MAX);
      TagDispatch(codec, TAG_GENERIC_PARAM, Counted(index) + r, depth);
      assert MangleType(codec, t) + r == [TAG_GENERIC_PARAM] + (Counted(index) + r);
    case Inferred(id, _) =>
      ReadPrinted(id, r, U32_MAX);
      TagDispatch(codec, TAG_INFERRED, Counted(id) + r, depth);
      assert MangleType(codec, t) + r == [TAG_INFERRED] + (Counted(id) + r);
  }

  lemma {:induction false} NominalRoundTrip(codec: Codec, t: Type, r: bytes, depth: nat)
    requires Lossless(codec) && depth >= 1
    requires t.Nominal? && Framed(codec, t, r)
    ensures ReadsBack(DemangleType(codec, MangleType(codec, t) + r, depth), t, r)
  {
    hide Lossless, Utf8, Delimited, Split, MangleString, DemangleString, DemangleType;
    PathRoundTripIff(codec, t.name, r, depth);
    TagDispatch(codec, NominalTag(t.nominal), MangleString(codec, t.name) + r, depth);
    assert MangleType(codec, t) + r == [NominalTag(t.nominal)] + (MangleString(codec, t.name) + r);
  }

  lemma {:induction false} ArrayRoundTrip(codec: Codec, t: Type, r: bytes, depth: nat)
    requires t.Array? || t.UnresolvedArray?
    requires var following := Counted(if t.Array? then t.length else 0) + r;
      ReadsBack(DemangleType(codec, MangleType(codec, t.element) + following, depth), t.element, following)
    ensures ReadsBack(DemangleType(codec, MangleType(codec, t) + r, depth), t, r)
  {
    hide ReadCount, Counted, DemangleType;
    var length := if t.Array? then t.length else 0;
    var element := MangleType(codec, t.element);
    ReadPrinted(length, r, U32_MAX);
    TagDispatch(codec, TAG_ARRAY, element + (Counted(length) + r), depth);
    assert MangleType(codec, t) + r == [TAG_ARRAY] + (element + (Counted(length) + r));
  }

  lemma {:induction false} RefineRoundTrip(codec: Codec, t: Type, r: bytes, depth: nat)
    requires t.Refine? || t.UnresolvedRefine?
    requires ReadsBack(DemangleType(codec, MangleType(codec, t.base) + r, depth), t.base, r)
    ensures ReadsBack(DemangleType(codec, MangleType(codec, t) + r, depth), t, r)
  {
    hide DemangleType;
    TagDispatch(codec, TAG_REFINE, MangleType(codec, t.base) + r, depth);
    assert MangleType(codec, t) + r == [TAG_REFINE] + (MangleType(codec, t.base) + r);
  }

  lemma {:induction false} IndirectRoundTrip(codec: Codec, t: Type, r: bytes, depth: nat)
    requires t.Indirect?
    requires ReadsBack(DemangleType(codec, MangleType(codec, t.to) + r, depth), t.to, r)
    ensures ReadsBack(DemangleType(codec, MangleType(codec, t) + r, depth), t, r)
  {
    hide DemangleType, ReadRefFlags, RefFlags, PointerTag, TagPointer, TagNominal;
    var flags := RefFlags(t.exclusive, t.mutable);
    var tail := MangleType(codec, t.to) + r;
    FlagsReadBack(t.exclusive, t.mutable, tail);
    PointerTagReadsBack(t.pointer);
    TagDispatch(codec, PointerTag(t.pointer), [flags] + tail, depth);
    assert MangleType(codec, t) + r == [PointerTag(t.pointer)] + ([flags] + tail);
  }

  lemma {:induction false} FlagsReadBack(exclusive: bool, mutable: bool, r: bytes)
    ensures ReadRefFlags([RefFlags(exclusive, mutable)] + r) == Done((exclusive, mutable), r)
  {
    assert ([RefFlags(exclusive, mutable)] + r)[1..] == r;
  }

  lemma {:induction false} PointerTagReadsBack(k: PointerKind)
    ensures TagPointer(PointerTag(k)) == Some(k)
  {
  }

  lemma {:induction false} TupleRoundTrip(codec: Codec, elements: seq<Type>, r: bytes, depth: nat)
    requires AllReadBack(DemangleTypes(codec, MangleTypes(codec, elements) + r, |elements|, depth), elements, r)
    ensures ReadsBack(DemangleType(codec, MangleType(codec, Tuple(elements)) + r, depth), Tuple(elements), r)
  {
    hide ReadCount, Counted, MangleTypes, DemangleTypes, EraseAll, AllEncodable, DemangleType;
    var tail := MangleTypes(codec, elements) + r;
    ReadPrinted(|elements|, tail, U32_MAX);
    TagDispatch(codec, TAG_TUPLE, Counted(|elements|) + tail, depth);
    assert MangleType(codec, Tuple(elements)) + r == [TAG_TUPLE] + (Counted(|elements|) + tail);
  }

  lemma {:induction false} FunctionRoundTrip(codec: Codec, t: Type, r: bytes, depth: nat)
    requires t.Function?
    requires var following := MangleType(codec, t.result) + r;
      && AllReadBack(DemangleTypes(codec, MangleTypes(codec, t.params) + following, |t.params|, depth), t.params, following)
      && ReadsBack(DemangleType(codec, following, depth), t.result, r)
    ensures ReadsBack(DemangleType(codec, MangleType(codec, t) + r, depth), t, r)
  {
    hide ReadCount, Counted, MangleTypes, DemangleTypes, EraseAll, AllEncodable, DemangleType;
    var tail := MangleTypes(codec, t.params) + (MangleType(codec, t.result) + r);
    ReadPrinted(|t.params|, tail, U32_MAX);
    TagDispatch(codec, TAG_FUNCTION, Counted(|t.params|) + tail, depth);
    assert MangleType(codec, t) + r == [TAG_FUNCTION] + (Counted(|t.params|) + tail);
  }

  lemma {:induction false} ParameterizedRoundTrip(codec: Codec, t: Type, r: bytes, depth: nat)
    requires t.Parameterized?
    requires var counted := Counted(|t.args|) + MangleTypes(codec, t.args) + r;
      && AllReadBack(DemangleTypes(codec, MangleTypes(codec, t.args) + r, |t.args|, depth), t.args, r)
      && ReadsBack(DemangleType(codec, MangleType(codec, t.base) + counted, depth), t.base, counted)
    ensures ReadsBack(DemangleType(codec, MangleType(codec, t) + r, depth), t, r)
  {
    hide ReadCount, Counted, MangleTypes, DemangleTypes, EraseAll, AllEncodable, DemangleType;
    var args, base := MangleTypes(codec, t.args), MangleType(codec, t.base);
    var counted := Counted(|t.args|) + args + r;
    ReadPrinted(|t.args|, args + r, U32_MAX);
    assert counted == Counted(|t.args|) + (args + r);
    TagDispatch(codec, TAG_PARAMETERIZED, base + counted, depth);
    assert MangleType(codec, t) + r == [TAG_PARAMETERIZED] + (base + counted);
  }

  // ---------------------------------------------------------------------------
  // Consequences
  // ---------------------------------------------------------------------------

  lemma {:induction false} ErasedTypeManglesAlike(codec: Codec, t: Type)
    ensures MangleType(codec, Erase(t)) == MangleType(codec, t)
    decreases t
  {
    hide Counted, MangleString;
    match t
    case Array(element, _) => ErasedTypeManglesAlike(codec, element);
    case UnresolvedArray(element, _) => ErasedTypeManglesAlike(codec, element);
    case Tuple(elements) => ErasedTypesMangleAlike(codec, elements);
    case Refine(base, _, _) => ErasedTypeManglesAlike(codec, base);
    case UnresolvedRefine(base, _, _) => ErasedTypeManglesAlike(codec, base);
    case Function(_, _, params, result) =>
      ErasedTypesMangleAlike(codec, params);
      ErasedTypeManglesAlike(codec, result);
    case Indirect(_, _, _, _, to) => ErasedTypeManglesAlike(codec, to);
    case Parameterized(base, args, _) =>
      ErasedTypeManglesAlike(codec, base);
      ErasedTypesMangleAlike(codec, args);
    case _ =>
  }

  lemma {:induction false} ErasedTypesMangleAlike(codec: Codec, ts: seq<Type>)
    ensures MangleTypes(codec, EraseAll(ts)) == MangleTypes(codec, ts)
    decreases ts
  {
    if ts != [] {
      ErasedTypeManglesAlike(codec, ts[0]);
      ErasedTypesMangleAlike(codec, ts[1..]);
      assert EraseAll(ts)[1..] == EraseAll(ts[1..]);
    }
  }

  /** Two types get the same encoding exactly when they differ only in what is erased, and no encoding is a proper
      prefix of another. */
  lemma {:induction false} TypesMangleAlikeIff(codec: Codec, t: Type, u: Type)
    requires Lossless(codec) && WellNamed(t) && WellNamed(u) && Encodable(t) && Encodable(u)
    ensures MangleType(codec, t) == MangleType(codec, u) <==> Erase(t) == Erase(u)
    ensures MangleType(codec, t) <= MangleType(codec, u) ==> MangleType(codec, t) == MangleType(codec, u)
  {
    hide Lossless, WellNamed, Encodable, MangleType, Erase, DemangleType, Framed;
    var m, n := MangleType(codec, t), MangleType(codec, u);
    WellNamedIsFramed(codec, u, []);
    TypeRoundTrip(codec, u, [], 1);
    assert n + [] == n;
    if m <= n {
      var r := n[|m|..];
      assert m + r == n;
      WellNamedIsFramed(codec, t, r);
      TypeRoundTrip(codec, t, r, 1);
    }
    ErasedTypeManglesAlike(codec, t);
    ErasedTypeManglesAlike(codec, u);
  }

  /** Encodings are built from identifier characters and start with a letter. */
  lemma {:induction false} TypeShape(codec: Codec, t: Type)
    requires WellNamed(t)
    ensures IsWord(MangleType(codec, t)) && IsLetter(MangleType(codec, t)[0])
    decreases t
  {
    hide Decimal, MangleString, Utf8, NonEmptySegments;
    match t
    case Array(element, length) => TypeShape(codec, element); DecimalShape(length);
    case UnresolvedArray(element, _) => TypeShape(codec, element); DecimalShape(0);
    case Tuple(elements) => TypesShape(codec, elements); DecimalShape(|elements|);
    case Nominal(_, name, _) => PathShape(codec, name);
    case Refine(base, _, _) => TypeShape(codec, base);
    case UnresolvedRefine(base, _, _) => TypeShape(codec, base);
    case Function(_, _, params, result) =>
      TypesShape(codec, params);
      TypeShape(codec, result);
      DecimalShape(|params|);
    case Indirect(_, _, _, _, to) => TypeShape(codec, to);
    case Parameterized(base, args, _) =>
      TypeShape(codec, base);
      TypesShape(codec, args);
      DecimalShape(|args|);
    case GenericParam(index, _) => DecimalShape(index);
    case Inferred(id, _) => DecimalShape(id);
    case _ =>
  }

  lemma {:induction false} TypesShape(codec: Codec, ts: seq<Type>)
    requires AllWellNamed(ts)
    ensures IsWord(MangleTypes(codec, ts))
    decreases ts
  {
    if ts != [] {
      TypeShape(codec, ts[0]);
      TypesShape(codec, ts[1..]);
    }
  }
}
