/** What the mangler prints, letter by letter: which form a segment takes, where its text stands, the letters of types
    and digits, and how a name is cut at its separators. */
module EncodingForms {
  import opened Wrappers
  import opened Numerals
  import opened Text
  import opened Segments
  import Base63
  import T = TypeNames
  import SymbolNames

  /** The bytes of a text of ASCII characters. */
  function Ascii(s: string): (b: bytes)
    ensures |b| == |s|
  {
    seq(|s|, i requires 0 <= i < |s| => s[i] as int % 0x80)
  }

  // ---------------------------------------------------------------------------
  // Segments
  // ---------------------------------------------------------------------------

  /** A segment is compressed when its other form is longer than 64 bytes and its compression is shorter than that. */
  predicate IsPacked(codec: Codec, segment: bytes) {
    segment != [] && |Plain(segment)| > 64 && |codec.deflate(Plain(segment))| < |Plain(segment)|
  }

  /** The first byte tells the form: `z` for the segments that compress, `x` for the others that are no identifier, a
      digit for the identifiers. */
  lemma {:induction false} FormByFirstByte(codec: Codec, segment: bytes)
    requires segment != []
    ensures var m := MangleSegment(codec, segment);
      && m != []
      && (m[0] == 'z' as int <==> IsPacked(codec, segment))
      && (m[0] == 'x' as int <==> !IsPacked(codec, segment) && !IsIdentifier(segment))
      && (IsDigit(m[0]) <==> !IsPacked(codec, segment) && IsIdentifier(segment))
  {
    hide Decimal, Hex, Base63.Encode, Counted, IsIdentifier;
    if IsIdentifier(segment) {
      assert Plain(segment)[0] == Decimal(|segment|)[0];
    }
  }

  /** An identifier that is not compressed stands at the end as it is, behind its length. */
  lemma {:induction false} IdentifierStandsAsItIs(codec: Codec, segment: bytes)
    requires IsIdentifier(segment) && |segment| <= USIZE_MAX && !IsPacked(codec, segment)
    ensures var m := MangleSegment(codec, segment);
      && |segment| <= |m|
      && var cut := |m| - |segment|;
        m[cut..] == segment && AllDigits(m[..cut]) && ParseDecimal(m[..cut], USIZE_MAX) == Some(|segment|)
  {
    hide Decimal, ParseDecimal, Base63.Encode;
    ParsePrinted(|segment|, USIZE_MAX);
    assert MangleSegment(codec, segment) == Decimal(|segment|) + segment;
  }

  /** Identifiers of at most 62 bytes are never compressed, longer ones are when that does not make them longer. */
  lemma {:induction false} ShortIdentifierIsPlain(codec: Codec, segment: bytes)
    requires IsIdentifier(segment)
    ensures |segment| <= 62 ==> !IsPacked(codec, segment)
    ensures |segment| >= 63 && |codec.deflate(Plain(segment))| <= |segment| ==> IsPacked(codec, segment)
  {
    var n := |segment|;
    assert |Plain(segment)| == |Decimal(n)| + n;
    if n < 10 {
      assert Numeral(n, 10) == [n];
    } else {
      assert Numeral(n, 10) == Numeral(n / 10, 10) + [n % 10];
      if n <= 62 {
        assert Numeral(n / 10, 10) == [n / 10];
      }
    }
  }

  predicate LowerHex(h: bytes) {
    forall i | 0 <= i < |h| :: '0' as int <= h[i] <= '9' as int || 'a' as int <= h[i] <= 'f' as int
  }

  /** An `x`, a count, an underscore and as many lower-case hexadecimal digits, two for every byte. */
  predicate IsHexForm(m: bytes, segment: bytes) {
    && m != [] && m[0] == 'x' as int
    && var r := ReadCount(m[1..], USIZE_MAX);
      && r.Done? && r.value == |r.rest| && |r.rest| % 2 == 0
      && LowerHex(r.rest) && ParseHex(r.rest) == Some(segment)
  }

  /** Any other segment that is not compressed is written in hexadecimal. */
  lemma {:induction false} OtherSegmentInHex(codec: Codec, segment: bytes)
    requires segment != [] && !IsIdentifier(segment) && !IsPacked(codec, segment) && |segment| <= LONGEST
    ensures IsHexForm(MangleSegment(codec, segment), segment)
  {
    hide ReadCount, Counted, Hex, ParseHex, IsIdentifier, Base63.Encode, LowerHex;
    var h := Hex(segment);
    HexRoundTrip(segment);
    HexIsLower(segment);
    ReadPrinted(|h|, h, USIZE_MAX);
    assert MangleSegment(codec, segment)[1..] == Counted(|h|) + h;
  }

  lemma {:induction false} HexIsLower(s: bytes)
    ensures LowerHex(Hex(s))
  {
    if s != [] {
      HexIsLower(s[1..]);
    }
  }

  /** A `z`, a count, an underscore and as many letters of base 63, which denote the packed bytes. */
  predicate IsPackedForm(m: bytes, packed: bytes) {
    && m != [] && m[0] == 'z' as int
    && var r := ReadCount(m[1..], USIZE_MAX);
      r.Done? && r.value == |r.rest| && Base63.Decode(r.rest) == Some(packed)
  }

  /** A compressed segment is the compression of its other form in base 63. */
  lemma {:induction false} PackedSegmentInBase63(codec: Codec, segment: bytes)
    requires IsPacked(codec, segment) && |segment| <= LONGEST
    requires var c := codec.deflate(Plain(segment)); c != [] && c[0] != 0
    ensures IsPackedForm(MangleSegment(codec, segment), codec.deflate(Plain(segment)))
  {
    hide ReadCount, Counted, Plain, Base63.Encode, Base63.Decode;
    var c := codec.deflate(Plain(segment));
    var base63 := Base63.Encode(c);
    PlainShape(segment);
    Base63.EncodeShape(c);
    Base63.DecodeEncode(c);
    ReadPrinted(|base63|, base63, USIZE_MAX);
    assert MangleSegment(codec, segment)[1..] == Counted(|base63|) + base63;
  }

  /** Readers accept upper-case digits as well. */
  function Upper(h: bytes): bytes {
    seq(|h|, i requires 0 <= i < |h| => if 97 <= h[i] <= 122 then h[i] - 32 else h[i])
  }

  lemma {:induction false} HexReadsEitherCase(s: bytes)
    ensures ParseHex(Upper(Hex(s))) == Some(s)
  {
    if s != [] {
      HexReadsEitherCase(s[1..]);
      var u := Upper(Hex(s));
      assert u[2..] == Upper(Hex(s[1..]));
      assert u[0] == Upper([HexDigit(s[0] / 16)])[0] && u[1] == Upper([HexDigit(s[0] % 16)])[0];
      assert [s[0]] + s[1..] == s;
    }
  }

  /** No other byte is a hexadecimal digit. */
  lemma {:induction false} HexDigitsOnly(c: byte, v: nat)
    requires v < 16
    ensures HexValue(c) == Some(v) <==> c == HexDigit(v) || [c] == Upper([HexDigit(v)])
  {
    assert [c][0] == c && |Upper([HexDigit(v)])| == 1;
  }

  function ZeroDigits(n: nat): bytes {
    seq(n, i => ZERO)
  }

  predicate IsSign(sign: bytes) {
    sign == [] || sign == [PLUS]
  }

  /** The texts read as a number are its decimal notation behind any number of zeros, and a plus sign before them. */
  lemma {:induction false} ParsesIff(s: bytes, n: nat, max: nat)
    ensures ParseDecimal(s, max) == Some(n) <==>
            n <= max && exists sign, zeros | IsSign(sign) :: s == sign + (ZeroDigits(zeros) + Decimal(n))
  {
    hide Decimal, ParseDecimal, ZeroDigits, IsSign;
    if ParseDecimal(s, max) == Some(n) {
      var sign, zeros := ParsedShape(s, n, max);
    }
    if sign, zeros :| IsSign(sign) && s == sign + (ZeroDigits(zeros) + Decimal(n)) {
      ZerosAreIgnored(zeros, n, max);
      SignIsIgnored(sign, ZeroDigits(zeros) + Decimal(n), max);
      ParsePrinted(n, max);
    }
  }

  lemma {:induction false} ParsedShape(s: bytes, n: nat, max: nat) returns (sign: bytes, zeros: nat)
    requires ParseDecimal(s, max) == Some(n)
    ensures n <= max && IsSign(sign) && s == sign + (ZeroDigits(zeros) + Decimal(n))
  {
    hide Decimal, ZeroDigits, Value;
    sign := if |s| > 1 && s[0] == PLUS then [PLUS] else [];
    zeros := LeadingZeros(s[|sign|..]);
    assert s == sign + s[|sign|..];
  }

  lemma {:induction false} SignIsIgnored(sign: bytes, digits: bytes, max: nat)
    requires IsSign(sign) && digits != [] && AllDigits(digits)
    ensures ParseDecimal(sign + digits, max) == ParseDecimal(digits, max)
  {
    assert IsDigit(digits[0]);
    assert (sign + digits)[|sign|..] == digits;
    if sign == [] {
      assert sign + digits == digits;
    }
  }

  lemma {:induction false} LeadingZeros(digits: bytes) returns (zeros: nat)
    requires digits != [] && AllDigits(digits)
    ensures digits == ZeroDigits(zeros) + Decimal(Value(DigitsOf(digits), 10))
  {
    hide Decimal, Value;
    if |digits| > 1 && digits[0] == ZERO {
      var tail := digits[1..];
      var fewer := LeadingZeros(tail);
      zeros := fewer + 1;
      assert digits == [ZERO] + tail;
      ZeroKeepsValue(tail);
      assert ZeroDigits(zeros) == [ZERO] + ZeroDigits(fewer);
    } else {
      zeros := 0;
      CanonicalDecimal(digits);
      assert ZeroDigits(0) + digits == digits;
    }
  }

  lemma {:induction false} ZeroKeepsValue(tail: bytes)
    requires AllDigits(tail)
    ensures AllDigits([ZERO] + tail) && Value(DigitsOf([ZERO] + tail), 10) == Value(DigitsOf(tail), 10)
  {
    hide Value;
    LeadingZero(DigitsOf(tail), 10);
    assert DigitsOf([ZERO] + tail) == [0] + DigitsOf(tail);
  }

  lemma {:induction false} CanonicalDecimal(digits: bytes)
    requires AllDigits(digits) && Canonical(DigitsOf(digits))
    ensures Decimal(Value(DigitsOf(digits), 10)) == digits
  {
    hide Value, Numeral;
    CanonicalIsNumeral(DigitsOf(digits), 10);
  }

  lemma {:induction false} ZerosAreIgnored(zeros: nat, n: nat, max: nat)
    ensures AllDigits(ZeroDigits(zeros) + Decimal(n))
    ensures ParseDecimal(ZeroDigits(zeros) + Decimal(n), max) == ParseDecimal(Decimal(n), max)
  {
    hide Decimal, ParseDecimal;
    if zeros == 0 {
      assert ZeroDigits(0) + Decimal(n) == Decimal(n);
    } else {
      ZerosAreIgnored(zeros - 1, n, max);
      ParseLeadingZero(ZeroDigits(zeros - 1) + Decimal(n), max);
      assert ZeroDigits(zeros) + Decimal(n) == [ZERO] + (ZeroDigits(zeros - 1) + Decimal(n));
    }
  }

  // ---------------------------------------------------------------------------
  // Letters
  // ---------------------------------------------------------------------------

  function CharRange(first: char, last: char): (s: string)
    requires first <= last < '\U{80}'
  {
    seq(last as int - first as int + 1, i requires 0 <= i <= last as int - first as int => (first as int + i) as char)
  }

  /** A to Z, a to z, 0 to 9 and the underscore. */
  function Alphabet(): (s: string)
    ensures |s| == 63
  {
    CharRange('A', 'Z') + CharRange('a', 'z') + CharRange('0', '9') + "_"
  }

  lemma {:induction false} AlphabetOfBase63(d: nat)
    requires d < 63
    ensures Base63.DigitByte(d) == Alphabet()[d] as int
    ensures IsWordByte(Base63.DigitByte(d)) && Base63.ByteDigit(Base63.DigitByte(d)) == d
  {
  }

  /** The kinds of types in the order of their tags: A to Z and then a to i. */
  function TagPosition(t: T.Type): (n: nat)
    ensures n < 35
  {
    match t
    case Basic(b) => BasicPosition(b)
    case Array(_, _) => 16
    case UnresolvedArray(_, _) => 16
    case Tuple(_) => 17
    case Nominal(kind, _, _) => (match kind case Struct => 18 case Enum => 19 case TypeAlias => 20)
    case Refine(_, _, _) => 21
    case UnresolvedRefine(_, _, _) => 21
    case Function(_, _, _, _) => 22
    case Indirect(kind, _, _, _, _) =>
      (match kind case Reference => 23 case SliceRef => 24 case Pointer => 25 case SlicePtr => 26)
    case TraitObject(_) => 27
    case Parameterized(_, _, _) => 28
    case GenericParam(_, _) => 29
    case Inferred(_, _) => 30
  }

  function BasicPosition(b: T.Basic): (n: nat)
    ensures n < 35
  {
    match b
    case Never => 0 case Unit => 1 case Bool => 2 case U8 => 3 case U16 => 4 case U32 => 5 case U64 => 6
    case U128 => 7 case USize => 8 case I8 => 9 case I16 => 10 case I32 => 11 case I64 => 12 case I128 => 13
    case F32 => 14 case F64 => 15 case InferredFloat => 31 case InferredInteger => 32 case Range => 33 case Str => 34
  }

  /** The first letter of an encoding is the one the documented table gives the kind of type. */
  lemma {:induction false} TagLetter(codec: Codec, t: T.Type)
    ensures T.MangleType(codec, t)[0] == Alphabet()[TagPosition(t)] as int
  {
    hide MangleString, Counted;
  }

  /** The flag of a reference counts exclusive twice and mutable once. */
  lemma {:induction false} FlagDigit(exclusive: bool, mutable: bool)
    ensures [T.RefFlags(exclusive, mutable)] == Decimal((if exclusive then 2 else 0) + (if mutable then 1 else 0))
  {
  }

  // ---------------------------------------------------------------------------
  // Separators
  // ---------------------------------------------------------------------------

  predicate HasSeparator(s: bytes) {
    exists i | 0 <= i < |s| - 1 :: s[i] == COLON && s[i + 1] == COLON
  }

  /** Parts of a path cut at its separators from the left: none holds a separator, and none but the last ends in half
      of one. */
  predicate CutFromLeft(parts: seq<bytes>) {
    && (forall i | 0 <= i < |parts| :: !HasSeparator(parts[i]))
    && (forall i | 0 <= i < |parts| - 1 :: parts[i] != [] ==> parts[i][|parts[i]| - 1] != COLON)
  }

  lemma {:induction false} FirstSeparator(s: bytes)
    ensures var i := FindSeparator(s);
      && !HasSeparator(s[..i])
      && (i < |s| ==> i > 0 ==> s[i - 1] != COLON)
      && (i == |s| ==> !HasSeparator(s))
  {
    var i := FindSeparator(s);
    if 2 <= |s| && !(s[0] == COLON && s[1] == COLON) {
      FirstSeparator(s[1..]);
      assert s[..i] == [s[0]] + s[1..][..i - 1];
      assert s[..i][1..] == s[1..][..i - 1];
      forall k | 0 <= k < |s[..i]| - 1 ensures !(s[..i][k] == COLON && s[..i][k + 1] == COLON) {
        if k > 0 {
          assert s[..i][k] == s[1..][..i - 1][k - 1];
          assert s[..i][k + 1] == s[1..][..i - 1][k];
        }
      }
      if i == |s| {
        assert s[..i] == s;
      }
    }
  }

  lemma {:induction false} NoneInTail(s: bytes)
    requires s != [] && !HasSeparator(s)
    ensures !HasSeparator(s[1..])
  {
    var t := s[1..];
    forall k | 0 <= k < |t| - 1 ensures !(t[k] == COLON && t[k + 1] == COLON) {
      assert t[k] == s[k + 1] && t[k + 1] == s[k + 1 + 1];
    }
  }

  lemma {:induction false} SeparatorBehind(part: bytes, rest: bytes)
    requires !HasSeparator(part) && (part != [] ==> part[|part| - 1] != COLON)
    ensures FindSeparator(part + SEPARATOR + rest) == |part|
    decreases |part|
  {
    var s := part + SEPARATOR + rest;
    if part != [] {
      assert s[1..] == part[1..] + SEPARATOR + rest;
      assert |part| > 1 ==> part[0] == s[0] && part[1] == s[1];
      NoneInTail(part);
      SeparatorBehind(part[1..], rest);
    }
  }

  lemma {:induction false} NoSeparatorFound(s: bytes)
    requires !HasSeparator(s)
    ensures FindSeparator(s) == |s|
  {
    if |s| >= 2 {
      NoneInTail(s);
      NoSeparatorFound(s[1..]);
    }
  }

  /** The segments of a path are the only parts that join to it and are cut from the left. */
  lemma {:induction false} SplitIsUnique(s: bytes, parts: seq<bytes>)
    ensures Split(s) == parts <==> parts != [] && Join(parts) == s && CutFromLeft(parts)
  {
    if Split(s) == parts {
      JoinOfSplit(s);
      SplitCuts(s);
    }
    if parts != [] && CutFromLeft(parts) {
      SplitOfJoin(parts);
    }
  }

  lemma {:induction false} SplitCuts(s: bytes)
    ensures CutFromLeft(Split(s))
    decreases |s|
  {
    hide HasSeparator, CutFromLeft, FindSeparator;
    var i := FindSeparator(s);
    FirstSeparator(s);
    if i < |s| {
      SplitCuts(s[i + 2..]);
      assert i > 0 ==> s[..i][i - 1] == s[i - 1];
      CutInFront(s[..i], Split(s[i + 2..]));
    } else {
      CutAlone(s);
    }
  }

  lemma {:induction false} CutAlone(part: bytes)
    requires !HasSeparator(part)
    ensures CutFromLeft([part])
  {
  }

  lemma {:induction false} CutInFront(part: bytes, parts: seq<bytes>)
    requires !HasSeparator(part) && (part != [] ==> part[|part| - 1] != COLON)
    requires CutFromLeft(parts)
    ensures CutFromLeft([part] + parts)
  {
    hide HasSeparator;
  }

  lemma {:induction false} SplitOfJoin(parts: seq<bytes>)
    requires parts != [] && CutFromLeft(parts)
    ensures Split(Join(parts)) == parts
    decreases |parts|
  {
    hide HasSeparator;
    var s := Join(parts);
    if |parts| == 1 {
      NoSeparatorFound(s);
    } else {
      var rest := Join(parts[1..]);
      assert s == parts[0] + SEPARATOR + rest;
      SeparatorBehind(parts[0], rest);
      assert s[|parts[0]| + 2..] == rest && s[..|parts[0]|] == parts[0];
      SplitOfJoin(parts[1..]);
    }
  }

  // ---------------------------------------------------------------------------
  // Examples
  // ---------------------------------------------------------------------------

  lemma {:induction false} ShortPlain(codec: Codec, segment: bytes)
    requires segment != [] && |Plain(segment)| <= 64
    ensures MangleSegment(codec, segment) == Plain(segment)
  {
    hide Plain;
  }

  /** Whatever the compressor does: `main` and `_foo` get their length in front, a letter outside ASCII is written in
      hexadecimal, and nothing is a zero. */
  lemma {:induction false} SegmentExamples(codec: Codec)
    ensures MangleSegment(codec, []) == Ascii("0")
    ensures MangleSegment(codec, Ascii("main")) == Ascii("4main")
    ensures MangleSegment(codec, Ascii("_foo")) == Ascii("4_foo")
    ensures MangleSegment(codec, [0xCE, 0xBB]) == Ascii("x4_cebb")
  {
    hide MangleSegment;
    EmptyExample(codec);
    IdentifierExample(codec, "4", "main");
    IdentifierExample(codec, "4", "_foo");
    assert "4" + "main" == "4main" && "4" + "_foo" == "4_foo";
    LambdaExample(codec);
  }

  lemma {:induction false} EmptyExample(codec: Codec)
    ensures MangleSegment(codec, []) == Ascii("0")
  {
  }

  lemma {:induction false} IdentifierExample(codec: Codec, length: string, name: string)
    requires IsIdentifier(Ascii(name)) && 1 <= |name| < 10 && Decimal(|name|) == Ascii(length)
    ensures MangleSegment(codec, Ascii(name)) == Ascii(length + name)
  {
    hide MangleSegment, IsIdentifier;
    ShortIdentifierIsPlain(codec, Ascii(name));
    ShortPlain(codec, Ascii(name));
    assert Ascii(length) + Ascii(name) == Ascii(length + name);
  }

  lemma {:induction false} LambdaExample(codec: Codec)
    ensures MangleSegment(codec, [0xCE, 0xBB]) == Ascii("x4_cebb")
  {
    hide MangleSegment;
    var s := [0xCE, 0xBB];
    assert !IsWordByte(s[0]);
    assert s[1..] == [0xBB] && [0xBB][1..] == [];
    assert Hex(s) == Ascii("cebb");
    assert Decimal(4) == Ascii("4");
    assert Plain(s) == Ascii("x4_cebb");
    ShortPlain(codec, s);
  }

  /** The parts of composite types in their order. */
  lemma {:induction false} TypeExamples(codec: Codec)
    ensures T.MangleType(codec, T.Array(T.Basic(T.I32), 5)) == Ascii("QL5_")
    ensures T.MangleType(codec, T.Parameterized(T.Basic(T.Unit), [T.Basic(T.U8)], [])) == Ascii("cB1_D")
    ensures T.MangleType(codec, T.Indirect(T.Pointer, T.GcLifetime, true, false, T.Basic(T.F32))) == Ascii("Z2O")
    ensures T.MangleType(codec, T.Inferred(7, None)) == Ascii("e7_")
  {
    hide MangleString, T.MangleTypes;
    OneCharTypes(codec);
    CountExamples();
    OneTypeList(codec);
  }

  /** A tuple of a boolean and a byte, and the type of functions from bytes to booleans. */
  lemma {:induction false} ListTypeExamples(codec: Codec)
    ensures T.MangleType(codec, T.Tuple([T.Basic(T.Bool), T.Basic(T.U8)])) == Ascii("R2_CD")
    ensures T.MangleType(codec, T.Function(0, [[]], [T.Basic(T.U8)], T.Basic(T.Bool))) == Ascii("W1_DC")
  {
    hide MangleString, T.MangleTypes;
    OneCharTypes(codec);
    CountExamples();
    OneTypeList(codec);
    TwoTypeList(codec);
  }

  lemma {:induction false} CountExamples()
    ensures Counted(1) == Ascii("1_") && Counted(2) == Ascii("2_") && Counted(5) == Ascii("5_") && Counted(7) == Ascii("7_")
  {
  }

  lemma {:induction false} OneTypeList(codec: Codec)
    ensures T.MangleTypes(codec, [T.Basic(T.U8)]) == Ascii("D")
  {
    OneCharTypes(codec);
    var one := [T.Basic(T.U8)];
    assert one[1..] == [];
    assert Ascii("D") + T.MangleTypes(codec, []) == Ascii("D");
  }

  lemma {:induction false} TwoTypeList(codec: Codec)
    ensures T.MangleTypes(codec, [T.Basic(T.Bool), T.Basic(T.U8)]) == Ascii("CD")
  {
    OneCharTypes(codec);
    OneTypeList(codec);
    var two := [T.Basic(T.Bool), T.Basic(T.U8)];
    assert two[1..] == [T.Basic(T.U8)];
    assert Ascii("C") + Ascii("D") == Ascii("CD");
  }

  lemma {:induction false} OneCharTypes(codec: Codec)
    ensures T.MangleType(codec, T.Basic(T.I32)) == Ascii("L") && T.MangleType(codec, T.Basic(T.Bool)) == Ascii("C")
    ensures T.MangleType(codec, T.Basic(T.U8)) == Ascii("D") && T.MangleType(codec, T.Basic(T.F32)) == Ascii("O")
    ensures T.MangleType(codec, T.Basic(T.Unit)) == Ascii("B")
  {
  }

  /** The constant `math::pi` of the package `math`, of type F64. */
  lemma {:induction false} NameExample(codec: Codec)
    ensures SymbolNames.MangleName(codec, Ascii("math"), Ascii("math::pi"), T.Basic(T.F64)) == Ascii("_N1_4math2_4math2piP")
    ensures SymbolNames.MangleModule(codec, Ascii("math")) == Ascii("_N1_4math")
  {
    hide MangleString;
    PathExamples(codec);
    assert SymbolNames.PREFIX == Ascii("_N");
    assert T.MangleType(codec, T.Basic(T.F64)) == Ascii("P");
    assert Ascii("_N") + Ascii("1_4math") == Ascii("_N1_4math");
    assert Ascii("_N1_4math") + Ascii("2_4math2pi") == Ascii("_N1_4math2_4math2pi");
    assert Ascii("_N1_4math2_4math2pi") + Ascii("P") == Ascii("_N1_4math2_4math2piP");
  }

  lemma {:induction false} PathExamples(codec: Codec)
    ensures MangleString(codec, Ascii("math")) == Ascii("1_4math")
    ensures MangleString(codec, Ascii("math::pi")) == Ascii("2_4math2pi")
  {
    hide MangleSegment, Split;
    SplitExamples();
    IdentifierExample(codec, "4", "math");
    IdentifierExample(codec, "2", "pi");
    var math, pi := Ascii("math"), Ascii("pi");
    var none: seq<bytes> := [];
    assert "4" + "math" == "4math" && "2" + "pi" == "2pi";
    assert [math][1..] == none && [math, pi][1..] == [pi] && [pi][1..] == none;
    assert MangleSegments(codec, none) == [];
    assert MangleSegments(codec, [pi]) == Ascii("2pi");
    assert Counted(1) == Ascii("1_") && Counted(2) == Ascii("2_");
    assert Ascii("4math") + Ascii("2pi") == Ascii("4math2pi");
    assert Ascii("1_") + Ascii("4math") == Ascii("1_4math");
    assert Ascii("2_") + Ascii("4math2pi") == Ascii("2_4math2pi");
  }

  lemma {:induction false} SplitExamples()
    ensures Split(Ascii("math")) == [Ascii("math")]
    ensures Split(Ascii("math::pi")) == [Ascii("math"), Ascii("pi")]
  {
    hide Split, FindSeparator;
    var math, pi := Ascii("math"), Ascii("pi");
    CutAlone(pi);
    CutAlone(math);
    CutInFront(math, [pi]);
    assert [math] + [pi] == [math, pi] && [math, pi][1..] == [pi];
    assert Join([math, pi]) == Ascii("math::pi");
    SplitOfJoin([math]);
    SplitOfJoin([math, pi]);
  }
}
