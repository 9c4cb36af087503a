/** The demangler as it runs: methods that move a cursor over the input, each proved to follow the reading functions. */
module Demangler {
  import opened Wrappers
  import opened Results
  import opened Text
  import opened Segments
  import opened TypeNames
  import Base63
  import SymbolNames

  /** A result together with the place the cursor was left at. */
  function Answer<T>(r: Result<T, Failure>, rest: bytes): Reply<T> {
    match r case Ok(value) => Done(value, rest) case Err(error) => Failed(error, rest)
  }

  function Prepend<T>(values: seq<T>, reply: Reply<seq<T>>): Reply<seq<T>> {
    match reply case Done(tail, rest) => Done(values + tail, rest) case Failed(_, _) => reply
  }

  lemma {:induction false} PrependLaws<T>(values: seq<T>, value: T, reply: Reply<seq<T>>)
    ensures Prepend([], reply) == reply
    ensures Prepend(values + [value], reply) == Prepend(values, Prepend([value], reply))
  {
    if reply.Done? {
      assert [] + reply.value == reply.value;
      assert values + [value] + reply.value == values + ([value] + reply.value);
    }
  }

  /** Two hexadecimal digits a byte. */
  method HexPairs(hex: bytes) returns (r: Option<bytes>)
    requires |hex| % 2 == 0
    ensures r == ParseHex(hex)
  {
    var decoded: bytes := [];
    var i := 0;
    assert hex[0..] == hex;
    ghost var whole := ParseHex(hex);
    assert whole.Some? ==> decoded + whole.value == whole.value;
    while i < |hex|
      invariant 0 <= i <= |hex| && i % 2 == 0
      invariant ParseHex(hex[i..]).None? ==> ParseHex(hex).None?
      invariant ParseHex(hex[i..]).Some? ==> ParseHex(hex) == Some(decoded + ParseHex(hex[i..]).value)
    {
      var hi, lo := HexValue(hex[i]), HexValue(hex[i + 1]);
      ghost var tail := ParseHex(hex[i..]);
      assert hex[i..][2..] == hex[i + 2..];
      if hi.None? || lo.None? {
        return None;
      }
      var b: byte := 16 * hi.value + lo.value;
      ghost var shorter := ParseHex(hex[i + 2..]);
      if shorter.Some? {
        assert tail == Some([b] + shorter.value);
        assert decoded + ([b] + shorter.value) == decoded + [b] + shorter.value;
      }
      decoded := decoded + [b];
      i := i + 2;
    }
    assert hex[|hex|..] == [] && decoded + [] == decoded;
    return Some(decoded);
  }

  class Cursor {
    const codec: Codec
    var rest: bytes

    constructor (codec: Codec, input: bytes)
      ensures this.codec == codec && rest == input
    {
      this.codec, rest := codec, input;
    }

    method ReadDecimal(max: nat) returns (r: Result<nat, Failure>)
      modifies this
      ensures Answer(r, rest) == ReadCount(old(rest), max)
    {
      var end := Find(rest, UNDERSCORE);
      if end == |rest| {
        return Err(Malformed);
      }
      var value := ParseDecimal(rest[..end], max);
      if value.None? {
        return Err(Malformed);
      }
      rest := rest[end + 1..];
      return Ok(value.value);
    }

    method ReadPayloadLength() returns (r: Result<nat, Failure>)
      modifies this
      ensures Answer(r, rest) == ReadLength(old(rest))
    {
      r := ReadDecimal(USIZE_MAX);
      if r.Ok? && |rest| < r.value {
        return Err(Malformed);
      }
    }

    method HexSegment() returns (r: Result<bytes, Failure>)
      modifies this
      ensures Answer(r, rest) == DemangleHex(old(rest))
    {
      var length := ReadPayloadLength();
      if length.Err? {
        return Err(length.error);
      }
      var n := length.value;
      var hex := rest[..n];
      if n % 2 != 0 {
        return Err(Malformed);
      }
      var decoded := HexPairs(hex);
      if decoded.None? {
        return Err(Malformed);
      }
      rest := rest[n..];
      return if Utf8(decoded.value) then Ok(decoded.value) else Err(Malformed);
    }

    method IdentifierSegment() returns (r: Result<bytes, Failure>)
      requires rest != [] && IsDigit(rest[0])
      modifies this
      ensures Answer(r, rest) == DemangleIdentifier(old(rest))
    {
      var end := DigitRun(rest);
      if end == |rest| {
        return Err(Malformed);
      }
      var length := ParseDecimal(rest[..end], USIZE_MAX);
      if length.None? {
        return Err(Malformed);
      }
      rest := rest[end..];
      var n := length.value;
      if |rest| < n || !Utf8(rest[..n]) {
        return Err(Malformed);
      }
      var segment := rest[..n];
      rest := rest[n..];
      return Ok(segment);
    }

    method PackedSegment() returns (r: Result<bytes, Failure>)
      modifies this
      ensures Answer(r, rest) == Unpack(codec, old(rest))
    {
      var length := ReadPayloadLength();
      if length.Err? {
        return Err(length.error);
      }
      var base63 := rest[..length.value];
      if !Utf8(base63) {
        return Err(Malformed);
      }
      rest := rest[length.value..];
      var compressed := Base63.DecodeC99Base63(base63);
      if compressed.None? {
        return Err(Malformed);
      }
      var encoded := codec.inflate(compressed.value);
      if encoded.None? || !Utf8(encoded.value) {
        return Err(Malformed);
      }
      return Ok(encoded.value);
    }

    /** A compressed segment is read by a cursor of its own over the inflated text. */
    method Segment(depth: nat) returns (r: Result<bytes, Failure>)
      modifies this
      ensures Answer(r, rest) == DemangleSegment(codec, old(rest), depth)
      decreases depth
    {
      hide Unpack, DemangleHex, DemangleIdentifier, Utf8;
      if rest == [] {
        return Err(Malformed);
      }
      var kind := rest[0];
      if kind == COMPRESSED {
        rest := rest[1..];
        var packed := PackedSegment();
        if packed.Err? {
          return packed;
        }
        if depth == 0 {
          return Err(TooDeep);
        }
        var inner := new Cursor(codec, packed.value);
        r := inner.Segment(depth - 1);
      } else if kind == HEXADECIMAL {
        rest := rest[1..];
        r := HexSegment();
      } else if IsDigit(kind) {
        r := IdentifierSegment();
      } else {
        return Err(Malformed);
      }
    }

    method Path(depth: nat) returns (r: Result<bytes, Failure>)
      modifies this
      ensures Answer(r, rest) == DemangleString(codec, old(rest), depth)
    {
      hide DemangleSegment, ReadCount, Utf8;
      var count := ReadDecimal(USIZE_MAX);
      if count.Err? {
        return Err(count.error);
      }
      ghost var start := rest;
      var segments: seq<bytes> := [];
      PrependLaws(segments, [], DemangleSegments(codec, rest, count.value, depth));
      var i := 0;
      while i < count.value
        invariant 0 <= i <= count.value
        invariant DemangleSegments(codec, start, count.value, depth)
          == Prepend(segments, DemangleSegments(codec, rest, count.value - i, depth))
      {
        var segment := Segment(depth);
        if segment.Err? {
          return Err(segment.error);
        }
        PrependLaws(segments, segment.value, DemangleSegments(codec, rest, count.value - i - 1, depth));
        segments := segments + [segment.value];
        i := i + 1;
      }
      assert segments + [] == segments;
      return Ok(Join(segments));
    }

    method RefFlags() returns (r: Result<(bool, bool), Failure>)
      modifies this
      ensures Answer(r, rest) == ReadRefFlags(old(rest))
    {
      if rest == [] {
        return Err(Malformed);
      }
      var flags := rest[0];
      rest := rest[1..];
      match flags
      case 48 => return Ok((false, false));
      case 49 => return Ok((false, true));
      case 50 => return Ok((true, false));
      case 51 => return Ok((true, true));
      case _ => return Err(Malformed);
    }

    method TypeOf(depth: nat) returns (r: Result<Type, Failure>)
      modifies this
      ensures Answer(r, rest) == DemangleType(codec, old(rest), depth)
      decreases |rest|, 0
    {
      hide DemangleIndirect, DemangleArray, DemangleTuple, DemangleRefine, DemangleFunction, DemangleParameterized,
        DemangleString, ReadCount;
      if rest == [] {
        return Err(Malformed);
      }
      var tag := rest[0];
      rest := rest[1..];
      if TagBasic(tag).Some? {
        return Ok(Basic(TagBasic(tag).value));
      } else if TagNominal(tag).Some? {
        var name := Path(depth);
        return if name.Err? then Err(name.error) else Ok(Nominal(TagNominal(tag).value, name.value, 0));
      } else if TagPointer(tag).Some? {
        r := IndirectOf(TagPointer(tag).value, depth);
      } else if tag == TAG_ARRAY {
        r := ArrayOf(depth);
      } else if tag == TAG_TUPLE {
        r := TupleOf(depth);
      } else if tag == TAG_REFINE {
        r := RefineOf(depth);
      } else if tag == TAG_FUNCTION {
        r := FunctionOf(depth);
      } else if tag == TAG_TRAIT_OBJECT {
        return Ok(TraitObject(0));
      } else if tag == TAG_PARAMETERIZED {
        r := ParameterizedOf(depth);
      } else if tag == TAG_GENERIC_PARAM {
        var index := ReadDecimal(U32_MAX);
        return if index.Err? then Err(index.error) else Ok(GenericParam(index.value, []));
      } else if tag == TAG_INFERRED {
        var id := ReadDecimal(U32_MAX);
        return if id.Err? then Err(id.error) else if id.value == 0 then Err(Malformed) else Ok(Inferred(id.value, None));
      } else {
        return Err(Malformed);
      }
    }

    method IndirectOf(kind: PointerKind, depth: nat) returns (r: Result<Type, Failure>)
      modifies this
      ensures Answer(r, rest) == DemangleIndirect(codec, kind, old(rest), depth)
      decreases |rest|, 1
    {
      hide DemangleType, ReadRefFlags;
      var flags := RefFlags();
      if flags.Err? {
        return Err(flags.error);
      }
      var to := TypeOf(depth);
      return if to.Err? then to else Ok(Indirect(kind, InferredLifetime, flags.value.0, flags.value.1, to.value));
    }

    method ArrayOf(depth: nat) returns (r: Result<Type, Failure>)
      modifies this
      ensures Answer(r, rest) == DemangleArray(codec, old(rest), depth)
      decreases |rest|, 1
    {
      hide DemangleType, ReadCount;
      var element := TypeOf(depth);
      if element.Err? {
        return element;
      }
      var length := ReadDecimal(U32_MAX);
      return if length.Err? then Err(length.error) else Ok(Array(element.value, length.value));
    }

    method RefineOf(depth: nat) returns (r: Result<Type, Failure>)
      modifies this
      ensures Answer(r, rest) == DemangleRefine(codec, old(rest), depth)
      decreases |rest|, 1
    {
      hide DemangleType;
      var base := TypeOf(depth);
      return if base.Err? then base else Ok(Refine(base.value, 0, 0));
    }

    method TupleOf(depth: nat) returns (r: Result<Type, Failure>)
      modifies this
      ensures Answer(r, rest) == DemangleTuple(codec, old(rest), depth)
      decreases |rest|, 1
    {
      hide DemangleTypes, ReadCount;
      var count := ReadDecimal(U32_MAX);
      if count.Err? {
        return Err(count.error);
      }
      var elements := TypesOf(count.value, depth);
      return if elements.Err? then Err(elements.error) else Ok(Tuple(elements.value));
    }

    method FunctionOf(depth: nat) returns (r: Result<Type, Failure>)
      modifies this
      ensures Answer(r, rest) == DemangleFunction(codec, old(rest), depth)
      decreases |rest|, 1
    {
      hide DemangleTypes, DemangleType, ReadCount;
      var count := ReadDecimal(U32_MAX);
      if count.Err? {
        return Err(count.error);
      }
      var params := TypesOf(count.value, depth);
      if params.Err? {
        return Err(params.error);
      }
      var result := TypeOf(depth);
      return if result.Err? then result else Ok(Function(0, Blanks(count.value), params.value, result.value));
    }

    method ParameterizedOf(depth: nat) returns (r: Result<Type, Failure>)
      modifies this
      ensures Answer(r, rest) == DemangleParameterized(codec, old(rest), depth)
      decreases |rest|, 1
    {
      hide DemangleTypes, DemangleType, ReadCount;
      var base := TypeOf(depth);
      if base.Err? {
        return base;
      }
      var count := ReadDecimal(U32_MAX);
      if count.Err? {
        return Err(count.error);
      }
      var args := TypesOf(count.value, depth);
      return if args.Err? then Err(args.error) else Ok(Parameterized(base.value, args.value, []));
    }

    method TypesOf(count: nat, depth: nat) returns (r: Result<seq<Type>, Failure>)
      modifies this
      ensures Answer(r, rest) == DemangleTypes(codec, old(rest), count, depth)
      decreases |rest|, 2
    {
      hide DemangleType;
      var types: seq<Type> := [];
      PrependLaws(types, TraitObject(0), DemangleTypes(codec, rest, count, depth));
      var i := 0;
      while i < count
        invariant 0 <= i <= count && |rest| <= |old(rest)|
        invariant DemangleTypes(codec, old(rest), count, depth)
          == Prepend(types, DemangleTypes(codec, rest, count - i, depth))
      {
        var t := TypeOf(depth);
        if t.Err? {
          return Err(t.error);
        }
        PrependLaws(types, t.value, DemangleTypes(codec, rest, count - i - 1, depth));
        types := types + [t.value];
        i := i + 1;
      }
      assert types + [] == types;
      return Ok(types);
    }
  }

  method ReadSymbolName(codec: Codec, mangled: bytes, depth: nat) returns (r: Option<(bytes, bytes, Type)>)
    ensures r == SymbolNames.DemangleName(codec, mangled, depth)
  {
    hide DemangleString, DemangleType;
    if !(SymbolNames.PREFIX <= mangled) {
      return None;
    }
    var input := new Cursor(codec, mangled[|SymbolNames.PREFIX|..]);
    var package := input.Path(depth);
    if package.Err? {
      return None;
    }
    var name := input.Path(depth);
    if name.Err? {
      return None;
    }
    var t := input.TypeOf(depth);
    if t.Err? || input.rest != [] {
      return None;
    }
    return Some((package.value, name.value, t.value));
  }

  method ReadModuleName(codec: Codec, mangled: bytes, depth: nat) returns (r: Option<bytes>)
    ensures r == SymbolNames.DemangleModule(codec, mangled, depth)
  {
    hide DemangleString;
    if !(SymbolNames.PREFIX <= mangled) {
      return None;
    }
    var input := new Cursor(codec, mangled[|SymbolNames.PREFIX|..]);
    var name := input.Path(depth);
    return if name.Err? then None else Some(name.value);
  }
}
