/** Mangled symbol and module names, and the pass that assigns them. */
module SymbolNames {
  import opened Wrappers
  import opened Text
  import opened Segments
  import opened TypeNames
  import opened TypeFraming

  const PREFIX: bytes := [UNDERSCORE, 78] // _N

  predicate IsString(s: bytes) {
    Utf8(s) && |s| <= LONGEST
  }

  function MangleName(codec: Codec, package: bytes, name: bytes, t: Type): bytes {
    PREFIX + MangleString(codec, package) + MangleString(codec, name) + MangleType(codec, t)
  }

  function DemangleName(codec: Codec, mangled: bytes, depth: nat): Option<(bytes, bytes, Type)> {
    if !(PREFIX <= mangled) then None
    else
      var package := DemangleString(codec, mangled[|PREFIX|..], depth);
      if package.Failed? then None
      else
        var name := DemangleString(codec, package.rest, depth);
        if name.Failed? then None
        else
          var t := DemangleType(codec, name.rest, depth);
          if t.Failed? || t.rest != [] then None else Some((package.value, name.value, t.value))
  }

  function MangleModule(codec: Codec, name: bytes): bytes {
    PREFIX + MangleString(codec, name)
  }

  /** Unlike a symbol name, a module name is read without checking that nothing follows it. */
  function DemangleModule(codec: Codec, mangled: bytes, depth: nat): Option<bytes> {
    if !(PREFIX <= mangled) then None
    else
      var name := DemangleString(codec, mangled[|PREFIX|..], depth);
      if name.Failed? then None else Some(name.value)
  }

  /** When each part is delimited by the next, a mangled name demangles to its package, its name and its erased type, or
      is rejected because the type is not encodable. */
  lemma {:induction false} NameReadsBack(codec: Codec, package: bytes, name: bytes, t: Type, depth: nat)
    requires Lossless(codec) && depth >= 1
    requires IsString(package) && Delimited(codec, Split(package), MangleString(codec, name) + MangleType(codec, t))
    requires IsString(name) && Delimited(codec, Split(name), MangleType(codec, t))
    requires Framed(codec, t, [])
    ensures DemangleName(codec, MangleName(codec, package, name, t), depth)
      == if Encodable(t) then Some((package, name, Erase(t))) else None
  {
    hide Lossless, Utf8, Delimited, Split, MangleString, DemangleString, MangleType, DemangleType, Framed, Encodable, Erase;
    var p, n, m := MangleString(codec, package), MangleString(codec, name), MangleType(codec, t);
    assert MangleName(codec, package, name, t) == PREFIX + (p + (n + m));
    PathRoundTripIff(codec, package, n + m, depth);
    PathRoundTripIff(codec, name, m, depth);
    TypeRoundTrip(codec, t, [], depth);
    assert m + [] == m;
  }

  /** Whether each of the three parts of a mangled name is delimited by what follows it. */
  predicate NameFramed(codec: Codec, package: bytes, name: bytes, t: Type) {
    && Delimited(codec, Split(package), MangleString(codec, name) + MangleType(codec, t))
    && Delimited(codec, Split(name), MangleType(codec, t))
    && Framed(codec, t, [])
  }

  /** A mangled name demangles to its package, its name and its erased type if and only if the type is encodable and
      each part is delimited by what follows it. */
  lemma {:induction false} NameRoundTripIff(codec: Codec, package: bytes, name: bytes, t: Type, depth: nat)
    requires Lossless(codec) && depth >= 1
    requires IsString(package) && IsString(name) && StringNamed(t)
    ensures DemangleName(codec, MangleName(codec, package, name, t), depth) == Some((package, name, Erase(t)))
      <==> Encodable(t) && NameFramed(codec, package, name, t)
  {
    hide Lossless, Utf8, Delimited, Split, MangleString, DemangleString, MangleType, DemangleType, Framed, Encodable,
      Erase, StringNamed, CountLed, StartsSegment;
    var p, n, m := MangleString(codec, package), MangleString(codec, name), MangleType(codec, t);
    assert MangleName(codec, package, name, t) == PREFIX + (p + (n + m));
    assert m + [] == m;
    if NameFramed(codec, package, name, t) {
      NameReadsBack(codec, package, name, t, depth);
    } else if !Delimited(codec, Split(package), n + m) {
      PathGoesAstray(codec, package, n + m, depth);
      NoPathBehindDigits(codec, name, m, depth);
    } else {
      PathRoundTripIff(codec, package, n + m, depth);
      if !Delimited(codec, Split(name), m) {
        PathGoesAstray(codec, name, m, depth);
        TagStartsNoSegment(codec, t, []);
      } else {
        PathRoundTripIff(codec, name, m, depth);
        TypeGoesAstray(codec, t, [], depth);
      }
    }
  }

  /** A reader that took the segment count of a path for an empty segment stops in front of its underscore, where no path
      can be read. */
  lemma {:induction false} NoPathBehindDigits(codec: Codec, name: bytes, r: bytes, depth: nat)
    ensures var s := MangleString(codec, name) + r;
      CountLed(s) && DemangleString(codec, s[DigitRun(s)..], depth).Failed?
  {
    hide Counted, CountLed, MangleSegments, DemangleSegments, Split, ReadCount;
    var count := |Split(name)|;
    var tail := MangleSegments(codec, Split(name)) + r;
    assert MangleString(codec, name) + r == Counted(count) + tail;
    CountedIsCountLed(count, tail);
    UnderscoreIsNoCount(tail, USIZE_MAX);
  }

  lemma {:induction false} NameRoundTrip(codec: Codec, package: bytes, name: bytes, t: Type, depth: nat)
    requires Lossless(codec) && depth >= 1
    requires IsString(package) && NonEmptySegments(package)
    requires IsString(name) && NonEmptySegments(name)
    requires WellNamed(t)
    ensures DemangleName(codec, MangleName(codec, package, name, t), depth)
      == if Encodable(t) then Some((package, name, Erase(t))) else None
  {
    hide Lossless, Utf8, Delimited, Split, MangleString, MangleType, WellNamed, Framed, Encodable, Erase, MangleName,
      DemangleName;
    NonEmptyIsDelimited(codec, Split(package), MangleString(codec, name) + MangleType(codec, t));
    NonEmptyIsDelimited(codec, Split(name), MangleType(codec, t));
    WellNamedIsFramed(codec, t, []);
    NameReadsBack(codec, package, name, t, depth);
  }

  /** Mangled names agree exactly when package, name and erased type all agree. */
  lemma {:induction false} NamesMangleAlikeIff(
      codec: Codec, package: bytes, name: bytes, t: Type, package': bytes, name': bytes, u: Type)
    requires Lossless(codec)
    requires IsString(package) && NonEmptySegments(package) && IsString(package') && NonEmptySegments(package')
    requires IsString(name) && NonEmptySegments(name) && IsString(name') && NonEmptySegments(name')
    requires WellNamed(t) && Encodable(t) && WellNamed(u) && Encodable(u)
    ensures MangleName(codec, package, name, t) == MangleName(codec, package', name', u)
      <==> package == package' && name == name' && Erase(t) == Erase(u)
  {
    hide Lossless, IsString, NonEmptySegments, WellNamed, Encodable, Erase, MangleType, MangleString, DemangleName;
    NameRoundTrip(codec, package, name, t, 1);
    NameRoundTrip(codec, package', name', u, 1);
    if package == package' && name == name' && Erase(t) == Erase(u) {
      ErasedTypeManglesAlike(codec, t);
      ErasedTypeManglesAlike(codec, u);
    }
  }

  /** Every mangled name is an identifier of the C language (section 6.4.2.1 of ISO/IEC 9899:1999). */
  lemma {:induction false} NameIsIdentifier(codec: Codec, package: bytes, name: bytes, t: Type)
    requires IsString(package) && IsString(name) && WellNamed(t)
    ensures IsIdentifier(MangleName(codec, package, name, t))
  {
    hide Utf8, MangleString, MangleType, WellNamed;
    PathShape(codec, package);
    PathShape(codec, name);
    TypeShape(codec, t);
  }

  /** A mangled module name demangles to the module exactly when every empty segment is followed by something that is
      not a digit, which a trailing one never is; otherwise it is rejected. */
  lemma {:induction false} ModuleRoundTripIff(codec: Codec, name: bytes, depth: nat)
    requires Lossless(codec) && depth >= 1 && IsString(name)
    ensures DemangleModule(codec, MangleModule(codec, name), depth)
      == if Delimited(codec, Split(name), []) then Some(name) else None
  {
    hide Lossless, Utf8, Delimited, Split, MangleSegments, DemangleSegments, ReadCount, Counted;
    var segments := Split(name);
    var body := MangleSegments(codec, segments);
    assert MangleModule(codec, name)[|PREFIX|..] == Counted(|segments|) + body;
    assert body + [] == body;
    assert MangleString(codec, name) + [] == Counted(|segments|) + body;
    PathRoundTripIff(codec, name, [], depth);
    if !Delimited(codec, segments, []) {
      SplitKeepsUtf8(name);
      ReadPrinted(|segments|, body, USIZE_MAX);
      OverreadEatsIntoRest(codec, segments, [], |segments|, depth);
    }
  }

  // ---- text left over ----

  /** A symbol name with anything left over behind it is rejected. */
  lemma {:induction false} NameRejectsTail(codec: Codec, package: bytes, name: bytes, t: Type, extra: bytes, depth: nat)
    requires Lossless(codec) && depth >= 1 && extra != []
    requires IsString(package) && NonEmptySegments(package)
    requires IsString(name) && NonEmptySegments(name)
    requires WellNamed(t)
    ensures DemangleName(codec, MangleName(codec, package, name, t) + extra, depth) == None
  {
    hide Lossless, Utf8, NonEmptySegments, MangleString, DemangleString, MangleType, DemangleType, WellNamed, Framed,
      Encodable, Erase;
    var p, n, m := MangleString(codec, package), MangleString(codec, name), MangleType(codec, t);
    assert MangleName(codec, package, name, t) + extra == PREFIX + (p + (n + (m + extra)));
    PathRoundTrip(codec, package, n + (m + extra), depth);
    PathRoundTrip(codec, name, m + extra, depth);
    WellNamedIsFramed(codec, t, extra);
    TypeRoundTrip(codec, t, extra, depth);
  }

  /** A module name is accepted with any text left over that delimits it. */
  lemma {:induction false} ModuleIgnoresTail(codec: Codec, name: bytes, extra: bytes, depth: nat)
    requires Lossless(codec) && depth >= 1 && IsString(name) && Delimited(codec, Split(name), extra)
    ensures DemangleModule(codec, MangleModule(codec, name) + extra, depth) == Some(name)
  {
    hide Lossless, Utf8, Delimited, Split, MangleString, DemangleString;
    assert MangleModule(codec, name) + extra == PREFIX + (MangleString(codec, name) + extra);
    PathRoundTripIff(codec, name, extra, depth);
  }

  /** So a module of non-empty segments is accepted in front of every text. */
  lemma {:induction false} ModuleIgnoresEveryTail(codec: Codec, name: bytes, extra: bytes, depth: nat)
    requires Lossless(codec) && depth >= 1 && IsString(name) && NonEmptySegments(name)
    ensures DemangleModule(codec, MangleModule(codec, name) + extra, depth) == Some(name)
  {
    hide Lossless, Utf8, Delimited, Split, DemangleModule, MangleModule;
    NonEmptyIsDelimited(codec, Split(name), extra);
    ModuleIgnoresTail(codec, name, extra, depth);
  }

  /** A module whose last segment is empty is rejected alone, and accepted with a zero behind it that a text follows which
      delimits it, although the zero itself does not. */
  lemma {:induction false} TailCompletesModule(codec: Codec, name: bytes, extra: bytes, depth: nat)
    requires Lossless(codec) && depth >= 1 && IsString(name)
    requires Split(name)[|Split(name)| - 1] == [] && Delimited(codec, Split(name), extra)
    requires extra != [] && !IsDigit(extra[0])
    ensures DemangleModule(codec, MangleModule(codec, name), depth) == None
    ensures DemangleModule(codec, MangleModule(codec, name) + ([ZERO] + extra), depth) == Some(name)
    ensures !Delimited(codec, Split(name), [ZERO] + extra)
  {
    hide Lossless, Utf8, Delimited, Split, MangleSegments, DemangleSegments, ReadCount, Counted;
    var segments := Split(name);
    var body, tail := MangleSegments(codec, segments), [ZERO] + extra;
    EmptyLastIsNotDelimited(codec, segments, []);
    EmptyLastIsNotDelimited(codec, segments, tail);
    ModuleRoundTripIff(codec, name, depth);
    SplitKeepsUtf8(name);
    ZeroIsSwallowed(codec, segments, extra, depth);
    ReadPrinted(|segments|, body + tail, USIZE_MAX);
    JoinOfSplit(name);
    assert (MangleModule(codec, name) + tail)[|PREFIX|..] == Counted(|segments|) + (body + tail);
  }

  /** When only a trailing empty segment can go wrong, a module name is accepted with a text left over exactly when that
      text is a run of zeros and then something that is not a digit. */
  lemma {:induction false} TrailingEmptyModuleIff(codec: Codec, name: bytes, extra: bytes, depth: nat)
    requires Lossless(codec) && depth >= 1 && IsString(name)
    requires Split(name)[|Split(name)| - 1] == [] && Delimited(codec, Split(name), [UNDERSCORE])
    ensures DemangleModule(codec, MangleModule(codec, name) + extra, depth) == Some(name) <==> ZerosThenOther(extra)
  {
    hide Lossless, Utf8, Delimited, Split, MangleString, DemangleString, ZerosThenOther;
    assert MangleModule(codec, name) + extra == PREFIX + (MangleString(codec, name) + extra);
    TrailingEmptyPathIff(codec, name, extra, depth);
  }

  /** For instance the module `a::`, with the text `0_` left over. */
  lemma {:induction false} TailExample(codec: Codec, depth: nat)
    requires Lossless(codec) && depth >= 1
    ensures var name := [97, COLON, COLON];
      && DemangleModule(codec, MangleModule(codec, name), depth) == None
      && DemangleModule(codec, MangleModule(codec, name) + [ZERO, UNDERSCORE], depth) == Some(name)
  {
    hide Lossless, MangleSegment, DemangleModule, MangleModule;
    var name: bytes, extra: bytes := [97, COLON, COLON], [UNDERSCORE];
    assert name[1..] == [COLON, COLON] && name[3..] == [] && name[..1] == [97];
    assert FindSeparator(name) == 1;
    var parts: seq<bytes> := [[97], []];
    assert Split(name) == parts;
    assert MangleSegments(codec, []) + extra == extra;
    assert parts[1..] == [[]] && parts[1..][1..] == [];
    assert Delimited(codec, parts[1..], extra);
    AsciiIsUtf8(name);
    assert [ZERO, UNDERSCORE] == [ZERO] + extra;
    TailCompletesModule(codec, name, extra, depth);
  }

  // ---------------------------------------------------------------------------
  // The pass
  // ---------------------------------------------------------------------------

  /** A function or global variable of the symbol table. A function's type is its function type. */
  class Symbol {
    const name: bytes
    const noMangle: bool
    const ty: Type
    var mangledName: Option<bytes>

    constructor (name: bytes, noMangle: bool, ty: Type)
      ensures this.name == name && this.noMangle == noMangle && this.ty == ty && mangledName == None
    {
      this.name, this.noMangle, this.ty, mangledName := name, noMangle, ty, None;
    }
  }

  function Qualify(package: bytes, name: bytes): bytes {
    package + SEPARATOR + name
  }

  predicate InPackage(package: bytes, name: bytes) {
    package + SEPARATOR <= name
  }

  function StripPackage(package: bytes, name: bytes): bytes {
    if InPackage(package, name) then name[|package| + |SEPARATOR|..] else name
  }

  /** Where the last separator starts, searching from the right; the length when there is none. */
  function FindLastSeparator(s: bytes): (i: nat)
    ensures i == |s| || (i + 2 <= |s| && s[i] == COLON && s[i + 1] == COLON)
    ensures forall k | 0 <= k && k + 2 <= |s| && (i == |s| || k > i) :: !(s[k] == COLON && s[k + 1] == COLON)
  {
    LastSeparatorBefore(s, |s|)
  }

  function LastSeparatorBefore(s: bytes, end: nat): (i: nat)
    requires end <= |s|
    ensures i == |s| || (i + 2 <= end && s[i] == COLON && s[i + 1] == COLON)
    ensures forall k | 0 <= k && k + 2 <= end && (i == |s| || k > i) :: !(s[k] == COLON && s[k + 1] == COLON)
  {
    if end < 2 then |s|
    else if s[end - 2] == COLON && s[end - 1] == COLON then end - 2
    else LastSeparatorBefore(s, end - 1)
  }

  function LastSegment(s: bytes): bytes {
    var i := FindLastSeparator(s);
    if i == |s| then s else s[i + 2..]
  }

  /** The bare name is what follows the last separator: it contains none, and is the whole name when there is none. */
  lemma {:induction false} LastSegmentLaws(s: bytes)
    ensures var bare := LastSegment(s);
      && (forall k | 0 <= k < |bare| - 1 :: !(bare[k] == COLON && bare[k + 1] == COLON))
      && (bare == s || SEPARATOR + bare == s[|s| - |bare| - 2..])
  {
    var i := FindLastSeparator(s);
    var bare := LastSegment(s);
    var shift := if i == |s| then 0 else i + 2;
    forall k | 0 <= k < |bare| - 1 ensures !(bare[k] == COLON && bare[k + 1] == COLON) {
      assert bare[k] == s[k + shift] && bare[k + 1] == s[k + shift + 1];
    }
  }

  function SymbolName(codec: Codec, package: bytes, name: bytes, noMangle: bool, t: Type): bytes {
    if noMangle then LastSegment(name) else MangleName(codec, package, StripPackage(package, name), t)
  }

  /** The names are equal, or one is the other qualified with the package. */
  predicate SameInPackage(package: bytes, a: bytes, b: bytes) {
    || a == b
    || (a == Qualify(package, b) && !InPackage(package, b))
    || (b == Qualify(package, a) && !InPackage(package, a))
  }

  /** Stripping undoes qualification, and identifies two names only when one is the other in the package. */
  lemma {:induction false} StripPackageLaws(package: bytes, a: bytes, b: bytes)
    ensures StripPackage(package, Qualify(package, a)) == a
    ensures StripPackage(package, a) == StripPackage(package, b) <==> SameInPackage(package, a, b)
  {
    assert Qualify(package, a)[|package| + |SEPARATOR|..] == a;
    assert Qualify(package, b)[|package| + |SEPARATOR|..] == b;
    assert InPackage(package, a) ==> a == Qualify(package, StripPackage(package, a));
    assert InPackage(package, b) ==> b == Qualify(package, StripPackage(package, b));
    assert InPackage(package, Qualify(package, a)) && InPackage(package, Qualify(package, b));
  }

  predicate Manglable(package: bytes, name: bytes, t: Type) {
    var bare := StripPackage(package, name);
    IsString(bare) && NonEmptySegments(bare) && WellNamed(t) && Encodable(t)
  }

  /** Two symbols of a package get the same mangled name exactly when their stripped names and erased types agree. */
  lemma {:induction false} SymbolsClashIff(codec: Codec, package: bytes, a: bytes, t: Type, b: bytes, u: Type)
    requires Lossless(codec) && IsString(package) && NonEmptySegments(package)
    requires Manglable(package, a, t) && Manglable(package, b, u)
    ensures SymbolName(codec, package, a, false, t) == SymbolName(codec, package, b, false, u)
      <==> Erase(t) == Erase(u) && SameInPackage(package, a, b)
  {
    hide Lossless, IsString, NonEmptySegments, WellNamed, Encodable, Erase, MangleName, StripPackage, InPackage, Qualify;
    NamesMangleAlikeIff(codec, package, StripPackage(package, a), t, package, StripPackage(package, b), u);
    StripPackageLaws(package, a, b);
  }

  // ---- symbols that are not mangled ----

  lemma {:induction false} LastSegmentQualified(path: bytes, bare: bytes)
    requires COLON !in bare
    ensures LastSegment(Qualify(path, bare)) == bare
  {
    var s := Qualify(path, bare);
    var i := FindLastSeparator(s);
    assert s[|path|] == COLON && s[|path| + 1] == COLON;
    forall k | |path| + 2 <= k < |s| ensures s[k] != COLON {
      assert s[k] == bare[k - |path| - 2] && s[k] in bare;
    }
    assert s[|path| + 2..] == bare;
  }

  /** Two symbols that are not mangled clash exactly when their bare names agree, whatever their paths and types: nothing
      protects `a::x` from `b::x`. */
  lemma {:induction false} UnmangledClashIff(
      codec: Codec, package: bytes, a: bytes, x: bytes, t: Type, b: bytes, y: bytes, u: Type)
    requires COLON !in x && COLON !in y
    ensures SymbolName(codec, package, Qualify(a, x), true, t) == SymbolName(codec, package, Qualify(b, y), true, u)
      <==> x == y
  {
    hide LastSegment, Qualify;
    LastSegmentQualified(a, x);
    LastSegmentQualified(b, y);
  }

  /** A symbol that is not mangled clashes with a mangled one exactly when its bare name is the mangled name, and every
      mangled name is a possible bare name. */
  lemma {:induction false} UnmangledMeetsMangledIff(
      codec: Codec, package: bytes, path: bytes, bare: bytes, t: Type, name: bytes, u: Type)
    requires IsString(package) && IsString(StripPackage(package, name)) && WellNamed(u)
    requires COLON !in bare
    ensures SymbolName(codec, package, Qualify(path, bare), true, t) == SymbolName(codec, package, name, false, u)
      <==> bare == SymbolName(codec, package, name, false, u)
    ensures IsIdentifier(SymbolName(codec, package, name, false, u))
      && COLON !in SymbolName(codec, package, name, false, u)
  {
    hide LastSegment, Qualify, MangleName, IsString, WellNamed, StripPackage;
    LastSegmentQualified(path, bare);
    NameIsIdentifier(codec, package, StripPackage(package, name), u);
  }

  /** Symbols that are all named inside the package never clash, whatever their types, and demangle to package and rest. */
  lemma {:induction false} PackageSymbolsAreDistinct(
      codec: Codec, package: bytes, a: bytes, t: Type, b: bytes, u: Type, depth: nat)
    requires Lossless(codec) && IsString(package) && NonEmptySegments(package) && depth >= 1
    requires InPackage(package, a) && InPackage(package, b)
    requires Manglable(package, a, t) && Manglable(package, b, u)
    ensures a != b ==> SymbolName(codec, package, a, false, t) != SymbolName(codec, package, b, false, u)
    ensures DemangleName(codec, SymbolName(codec, package, a, false, t), depth)
      == Some((package, StripPackage(package, a), Erase(t)))
    ensures a == Qualify(package, StripPackage(package, a))
  {
    hide Lossless, IsString, NonEmptySegments, WellNamed, Encodable, Erase, MangleName, DemangleName;
    SymbolsClashIff(codec, package, a, t, b, u);
    NameRoundTrip(codec, package, StripPackage(package, a), t, depth);
    assert a == Qualify(package, StripPackage(package, a));
    assert InPackage(package, a) && InPackage(package, b);
  }

  // ---- a whole table ----

  /** All symbols have different names inside the package, and those to be mangled can be. */
  predicate ManglableTable(package: bytes, table: seq<Symbol>) {
    && IsString(package) && NonEmptySegments(package)
    && (forall i, j | 0 <= i < j < |table| :: table[i].name != table[j].name)
    && (forall i | 0 <= i < |table| && !table[i].noMangle ::
          InPackage(package, table[i].name) && Manglable(package, table[i].name, table[i].ty))
  }

  predicate Named(codec: Codec, package: bytes, table: seq<Symbol>)
    reads table
  {
    forall s | s in table :: s.mangledName == Some(SymbolName(codec, package, s.name, s.noMangle, s.ty))
  }

  /** Mangled symbols have pairwise different names in the object file, and each demangles to the package, the rest of its
      name and its erased type. */
  ghost predicate DistinctlyNamed(codec: Codec, package: bytes, table: seq<Symbol>)
    reads table
  {
    && (forall i, j | 0 <= i < j < |table| && !table[i].noMangle && !table[j].noMangle ::
          table[i].mangledName != table[j].mangledName)
    && (forall i, depth: nat | 0 <= i < |table| && !table[i].noMangle && depth >= 1 ::
          Demangles(codec, package, table[i], depth))
  }

  predicate Demangles(codec: Codec, package: bytes, s: Symbol, depth: nat)
    reads s
  {
    var rest := StripPackage(package, s.name);
    && s.mangledName.Some?
    && DemangleName(codec, s.mangledName.value, depth) == Some((package, rest, Erase(s.ty)))
    && s.name == Qualify(package, rest)
  }

  /** The names the pass gives a table of distinct symbols are distinct and demangle. */
  lemma {:induction false} NamedTableIsDistinct(codec: Codec, package: bytes, table: seq<Symbol>)
    requires Lossless(codec) && ManglableTable(package, table) && Named(codec, package, table)
    ensures DistinctlyNamed(codec, package, table)
  {
    hide Lossless, IsString, NonEmptySegments, InPackage, Manglable, SymbolName, DemangleName, StripPackage, Qualify, Erase;
    forall i, j | 0 <= i < j < |table| && !table[i].noMangle && !table[j].noMangle
      ensures table[i].mangledName != table[j].mangledName
    {
      var a, b := table[i], table[j];
      PackageSymbolsAreDistinct(codec, package, a.name, a.ty, b.name, b.ty, 1);
    }
    forall i, depth: nat | 0 <= i < |table| && !table[i].noMangle && depth >= 1
      ensures Demangles(codec, package, table[i], depth)
    {
      var a := table[i];
      PackageSymbolsAreDistinct(codec, package, a.name, a.ty, a.name, a.ty, depth);
    }
  }

  /** Gives every function and then every global variable its name in the object file. */
  method MangleSymbols(codec: Codec, package: bytes, functions: seq<Symbol>, globals: seq<Symbol>)
    modifies (set s | s in functions + globals)`mangledName
    ensures Named(codec, package, functions + globals)
    ensures Lossless(codec) && ManglableTable(package, functions + globals)
      ==> DistinctlyNamed(codec, package, functions + globals)
  {
    hide LastSegment, MangleName, StripPackage, Lossless, ManglableTable, DistinctlyNamed;
    for i := 0 to |functions|
      invariant forall k | 0 <= k < i ::
        var s := functions[k]; s.mangledName == Some(SymbolName(codec, package, s.name, s.noMangle, s.ty))
    {
      var s := functions[i];
      if s.noMangle {
        s.mangledName := Some(LastSegment(s.name));
      } else {
        s.mangledName := Some(MangleName(codec, package, StripPackage(package, s.name), s.ty));
      }
    }
    for i := 0 to |globals|
      invariant forall k | 0 <= k < |functions| ::
        var s := functions[k]; s.mangledName == Some(SymbolName(codec, package, s.name, s.noMangle, s.ty))
      invariant forall k | 0 <= k < i ::
        var s := globals[k]; s.mangledName == Some(SymbolName(codec, package, s.name, s.noMangle, s.ty))
    {
      var s := globals[i];
      if s.noMangle {
        s.mangledName := Some(LastSegment(s.name));
      } else {
        s.mangledName := Some(MangleName(codec, package, StripPackage(package, s.name), s.ty));
      }
    }
    ghost var table := functions + globals;
    assert Named(codec, package, table);
    if Lossless(codec) && ManglableTable(package, table) {
      NamedTableIsDistinct(codec, package, table);
    }
  }
}
