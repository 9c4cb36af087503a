/** The framing condition under which printed types read back is also necessary. */
module TypeFraming {
  import opened Wrappers
  import opened Text
  import opened Segments
  import opened TypeNames

  /** Every name in the type is a string. */
  predicate StringNamed(t: Type) {
    match t
    case Array(element, _) => StringNamed(element)
    case UnresolvedArray(element, _) => StringNamed(element)
    case Tuple(elements) => AllStringNamed(elements)
    case Nominal(_, name, _) => Utf8(name) && |name| <= LONGEST
    case Refine(base, _, _) => StringNamed(base)
    case UnresolvedRefine(base, _, _) => StringNamed(base)
    case Function(_, _, params, result) => AllStringNamed(params) && StringNamed(result)
    case Indirect(_, _, _, _, to) => StringNamed(to)
    case Parameterized(base, args, _) => StringNamed(base) && AllStringNamed(args)
    case _ => true
  }

  predicate AllStringNamed(ts: seq<Type>) {
    ts == [] || (StringNamed(ts[0]) && AllStringNamed(ts[1..]))
  }

  // ---- what can follow a type ----

  /** No segment starts with the tag of a type, so no name can run into a type that follows it. */
  lemma {:induction false} TagStartsNoSegment(codec: Codec, t: Type, r: bytes)
    ensures var s := MangleType(codec, t) + r; s != [] && !StartsSegment(s[0])
  {
    hide MangleString, Counted, MangleTypes;
  }

  lemma {:induction false} CountedIsCountLed(n: nat, r: bytes)
    ensures var s := Counted(n) + r;
      CountLed(s) && s[DigitRun(s)..] == [UNDERSCORE] + r
  {
    hide Decimal;
    var tail := [UNDERSCORE] + r;
    var s := Counted(n) + r;
    assert s == Decimal(n) + tail;
    DigitRunOf(Decimal(n), tail);
    assert IsDigit(Decimal(n)[0]) && s[0] == Decimal(n)[0];
    assert s[|Decimal(n)|..] == tail;
  }

  /** A count needs a digit, so none is read behind the digits of another. */
  lemma {:induction false} UnderscoreIsNoCount(r: bytes, max: nat)
    ensures ReadCount([UNDERSCORE] + r, max).Failed?
  {
  }

  // ---------------------------------------------------------------------------
  // Types that are not framed
  // ---------------------------------------------------------------------------

  /** Where reading goes when a name is not delimited: it fails, yields another type, or eats into what follows. */
  predicate Astray(reply: Reply<Type>, t: Type, r: bytes) {
    reply.Failed? || reply.value != Erase(t) || EatsInto(reply.rest, r)
  }

  predicate AllAstray(reply: Reply<seq<Type>>, ts: seq<Type>, r: bytes) {
    reply.Failed? || reply.value != EraseAll(ts) || EatsInto(reply.rest, r)
  }

  lemma {:induction false} TypeGoesAstray(codec: Codec, t: Type, r: bytes, depth: nat)
    requires Lossless(codec) && depth >= 1 && StringNamed(t) && !Framed(codec, t, r)
    ensures Astray(DemangleType(codec, MangleType(codec, t) + r, depth), t, r)
    decreases t
  {
    hide Lossless, Utf8, Delimited, Split, Counted, Astray, MangleType, MangleTypes, DemangleType, Erase;
    match t
    case Array(element, length) =>
      TypeGoesAstray(codec, element, Counted(length) + r, depth);
      ArrayGoesAstray(codec, t, r, depth);
    case UnresolvedArray(element, _) =>
      TypeGoesAstray(codec, element, Counted(0) + r, depth);
      ArrayGoesAstray(codec, t, r, depth);
    case Tuple(elements) =>
      TypesGoAstray(codec, elements, r, depth);
      TupleGoesAstray(codec, elements, r, depth);
    case Nominal(_, _, _) => NominalGoesAstray(codec, t, r, depth);
    case Refine(base, _, _) =>
      TypeGoesAstray(codec, base, r, depth);
      RefineGoesAstray(codec, t, r, depth);
    case UnresolvedRefine(base, _, _) =>
      TypeGoesAstray(codec, base, r, depth);
      RefineGoesAstray(codec, t, r, depth);
    case Function(_, _, params, result) =>
      var following := MangleType(codec, result) + r;
      if AllFramed(codec, params, following) {
        TypesRoundTrip(codec, params, following, depth);
        TypeGoesAstray(codec, result, r, depth);
      } else {
        TypesGoAstray(codec, params, following, depth);
      }
      FunctionGoesAstray(codec, t, r, depth);
    case Indirect(_, _, _, _, to) =>
      TypeGoesAstray(codec, to, r, depth);
      IndirectGoesAstray(codec, t, r, depth);
    case Parameterized(base, args, _) =>
      var counted := Counted(|args|) + MangleTypes(codec, args) + r;
      if Framed(codec, base, counted) {
        TypeRoundTrip(codec, base, counted, depth);
        TypesGoAstray(codec, args, r, depth);
        ArgumentsGoAstray(codec, t, r, depth);
      } else {
        TypeGoesAstray(codec, base, counted, depth);
        BaseGoesAstray(codec, t, r, depth);
      }
  }

  lemma {:induction false} TypesGoAstray(codec: Codec, ts: seq<Type>, r: bytes, depth: nat)
    requires Lossless(codec) && depth >= 1 && AllStringNamed(ts) && !AllFramed(codec, ts, r)
    ensures AllAstray(DemangleTypes(codec, MangleTypes(codec, ts) + r, |ts|, depth), ts, r)
    decreases ts
  {
    hide Lossless, Framed, DemangleType, MangleType, Erase, Encodable, CountLed, StartsSegment;
    var following := MangleTypes(codec, ts[1..]) + r;
    assert MangleTypes(codec, ts) + r == MangleType(codec, ts[0]) + following;
    if Framed(codec, ts[0], following) {
      TypeRoundTrip(codec, ts[0], following, depth);
      TypesGoAstray(codec, ts[1..], r, depth);
      var tail := DemangleTypes(codec, following, |ts| - 1, depth);
      assert EraseAll(ts)[1..] == EraseAll(ts[1..]);
      assert tail.Done? ==> ([Erase(ts[0])] + tail.value)[1..] == tail.value;
    } else {
      TypeGoesAstray(codec, ts[0], following, depth);
      if |ts| > 1 {
        var last := MangleTypes(codec, ts[1..][1..]) + r;
        assert following == MangleType(codec, ts[1]) + last;
        TagStartsNoSegment(codec, ts[1], last);
      } else {
        assert following == r;
      }
    }
  }

  lemma {:induction false} NominalGoesAstray(codec: Codec, t: Type, r: bytes, depth: nat)
    requires Lossless(codec) && depth >= 1
    requires t.Nominal? && StringNamed(t) && !Framed(codec, t, r)
    ensures Astray(DemangleType(codec, MangleType(codec, t) + r, depth), t, r)
  {
    hide Lossless, Utf8, Delimited, Split, MangleString, DemangleString, DemangleType, EatsInto;
    PathGoesAstray(codec, t.name, r, depth);
    TagDispatch(codec, NominalTag(t.nominal), MangleString(codec, t.name) + r, depth);
    assert MangleType(codec, t) + r == [NominalTag(t.nominal)] + (MangleString(codec, t.name) + r);
  }

  /** After a type went astray in front of a count, no count is left to read. */
  lemma {:induction false} NoCountAfterStray(reply: Reply<Type>, t: Type, n: nat, r: bytes, max: nat)
    requires Astray(reply, t, Counted(n) + r)
    ensures reply.Failed? || reply.value != Erase(t) || ReadCount(reply.rest, max).Failed?
  {
    hide Counted, CountLed, StartsSegment, ReadCount, Erase;
    CountedIsCountLed(n, r);
    UnderscoreIsNoCount(r, max);
  }

  lemma {:induction false} ArrayGoesAstray(codec: Codec, t: Type, r: bytes, depth: nat)
    requires t.Array? || t.UnresolvedArray?
    requires var following := Counted(if t.Array? then t.length else 0) + r;
      Astray(DemangleType(codec, MangleType(codec, t.element) + following, depth), t.element, following)
    ensures Astray(DemangleType(codec, MangleType(codec, t) + r, depth), t, r)
  {
    hide ReadCount, Counted, DemangleType, EatsInto;
    var length := if t.Array? then t.length else 0;
    var element := MangleType(codec, t.element);
    NoCountAfterStray(DemangleType(codec, element + (Counted(length) + r), depth), t.element, length, r, U32_MAX);
    TagDispatch(codec, TAG_ARRAY, element + (Counted(length) + r), depth);
    assert MangleType(codec, t) + r == [TAG_ARRAY] + (element + (Counted(length) + r));
  }

  lemma {:induction false} RefineGoesAstray(codec: Codec, t: Type, r: bytes, depth: nat)
    requires t.Refine? || t.UnresolvedRefine?
    requires Astray(DemangleType(codec, MangleType(codec, t.base) + r, depth), t.base, r)
    ensures Astray(DemangleType(codec, MangleType(codec, t) + r, depth), t, r)
  {
    hide DemangleType, EatsInto;
    TagDispatch(codec, TAG_REFINE, MangleType(codec, t.base) + r, depth);
    assert MangleType(codec, t) + r == [TAG_REFINE] + (MangleType(codec, t.base) + r);
  }

  lemma {:induction false} IndirectGoesAstray(codec: Codec, t: Type, r: bytes, depth: nat)
    requires t.Indirect?
    requires Astray(DemangleType(codec, MangleType(codec, t.to) + r, depth), t.to, r)
    ensures Astray(DemangleType(codec, MangleType(codec, t) + r, depth), t, r)
  {
    hide DemangleType, EatsInto, ReadRefFlags, RefFlags, PointerTag, TagPointer, TagNominal;
    var flags := RefFlags(t.exclusive, t.mutable);
    var tail := MangleType(codec, t.to) + r;
    FlagsReadBack(t.exclusive, t.mutable, tail);
    PointerTagReadsBack(t.pointer);
    TagDispatch(codec, PointerTag(t.pointer), [flags] + tail, depth);
    assert MangleType(codec, t) + r == [PointerTag(t.pointer)] + ([flags] + tail);
  }

  lemma {:induction false} TupleGoesAstray(codec: Codec, elements: seq<Type>, r: bytes, depth: nat)
    requires AllAstray(DemangleTypes(codec, MangleTypes(codec, elements) + r, |elements|, depth), elements, r)
    ensures Astray(DemangleType(codec, MangleType(codec, Tuple(elements)) + r, depth), Tuple(elements), r)
  {
    hide ReadCount, Counted, MangleTypes, DemangleTypes, EraseAll, DemangleType, EatsInto;
    var tail := MangleTypes(codec, elements) + r;
    ReadPrinted(|elements|, tail, U32_MAX);
    TagDispatch(codec, TAG_TUPLE, Counted(|elements|) + tail, depth);
    assert MangleType(codec, Tuple(elements)) + r == [TAG_TUPLE] + (Counted(|elements|) + tail);
  }

  lemma {:induction false} FunctionGoesAstray(codec: Codec, t: Type, r: bytes, depth: nat)
    requires t.Function?
    requires var following := MangleType(codec, t.result) + r;
      var params := DemangleTypes(codec, MangleTypes(codec, t.params) + following, |t.params|, depth);
      || AllAstray(params, t.params, following)
      || (AllReadBack(params, t.params, following) && Astray(DemangleType(codec, following, depth), t.result, r))
    ensures Astray(DemangleType(codec, MangleType(codec, t) + r, depth), t, r)
  {
    hide ReadCount, Counted, MangleTypes, DemangleTypes, EraseAll, AllEncodable, DemangleType, StartsSegment, CountLed;
    var following := MangleType(codec, t.result) + r;
    var tail := MangleTypes(codec, t.params) + following;
    TagStartsNoSegment(codec, t.result, r);
    ReadPrinted(|t.params|, tail, U32_MAX);
    TagDispatch(codec, TAG_FUNCTION, Counted(|t.params|) + tail, depth);
    assert MangleType(codec, t) + r == [TAG_FUNCTION] + (Counted(|t.params|) + tail);
  }

  lemma {:induction false} BaseGoesAstray(codec: Codec, t: Type, r: bytes, depth: nat)
    requires t.Parameterized?
    requires var counted := Counted(|t.args|) + MangleTypes(codec, t.args) + r;
      Astray(DemangleType(codec, MangleType(codec, t.base) + counted, depth), t.base, counted)
    ensures Astray(DemangleType(codec, MangleType(codec, t) + r, depth), t, r)
  {
    hide ReadCount, Counted, MangleTypes, DemangleTypes, EraseAll, DemangleType, EatsInto;
    var args, base := MangleTypes(codec, t.args), MangleType(codec, t.base);
    var counted := Counted(|t.args|) + args + r;
    assert counted == Counted(|t.args|) + (args + r);
    NoCountAfterStray(DemangleType(codec, base + counted, depth), t.base, |t.args|, args + r, U32_MAX);
    TagDispatch(codec, TAG_PARAMETERIZED, base + counted, depth);
    assert MangleType(codec, t) + r == [TAG_PARAMETERIZED] + (base + counted);
  }

  lemma {:induction false} ArgumentsGoAstray(codec: Codec, t: Type, r: bytes, depth: nat)
    requires t.Parameterized?
    requires var counted := Counted(|t.args|) + MangleTypes(codec, t.args) + r;
      && ReadsBack(DemangleType(codec, MangleType(codec, t.base) + counted, depth), t.base, counted)
      && AllAstray(DemangleTypes(codec, MangleTypes(codec, t.args) + r, |t.args|, depth), t.args, r)
    ensures Astray(DemangleType(codec, MangleType(codec, t) + r, depth), t, r)
  {
    hide ReadCount, Counted, MangleTypes, DemangleTypes, EraseAll, DemangleType, EatsInto;
    var args, base := MangleTypes(codec, t.args), MangleType(codec, t.base);
    var counted := Counted(|t.args|) + args + r;
    assert counted == Counted(|t.args|) + (args + r);
    ReadPrinted(|t.args|, args + r, U32_MAX);
    TagDispatch(codec, TAG_PARAMETERIZED, base + counted, depth);
    assert MangleType(codec, t) + r == [TAG_PARAMETERIZED] + (base + counted);
  }

  // ---------------------------------------------------------------------------
  // The exact condition
  // ---------------------------------------------------------------------------

  /** A printed type in front of any text reads back as its erasure and exactly that text if and only if it is encodable
      and every name in it is delimited by what follows that name. */
  lemma {:induction false} TypeRoundTripIff(codec: Codec, t: Type, r: bytes, depth: nat)
    requires Lossless(codec) && depth >= 1 && StringNamed(t)
    ensures DemangleType(codec, MangleType(codec, t) + r, depth) == Done(Erase(t), r)
      <==> Encodable(t) && Framed(codec, t, r)
  {
    hide Lossless, StringNamed, Framed, Encodable, Erase, MangleType, DemangleType;
    if Framed(codec, t, r) {
      TypeRoundTrip(codec, t, r, depth);
    } else {
      TypeGoesAstray(codec, t, r, depth);
    }
  }

  /** The same for a counted list of types. */
  lemma {:induction false} TypesRoundTripIff(codec: Codec, ts: seq<Type>, r: bytes, depth: nat)
    requires Lossless(codec) && depth >= 1 && AllStringNamed(ts)
    ensures DemangleTypes(codec, MangleTypes(codec, ts) + r, |ts|, depth) == Done(EraseAll(ts), r)
      <==> AllEncodable(ts) && AllFramed(codec, ts, r)
  {
    hide Lossless, AllStringNamed, AllFramed, AllEncodable, EraseAll, MangleTypes, DemangleTypes;
    if AllFramed(codec, ts, r) {
      TypesRoundTrip(codec, ts, r, depth);
    } else {
      TypesGoAstray(codec, ts, r, depth);
    }
  }
}
