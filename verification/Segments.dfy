/** Mangling of name segments and of `::`-separated paths. DEFLATE is a parameter: a pair of functions. */
module Segments {
  import opened Wrappers
  import opened Numerals
  import opened Text
  import Base63

  datatype Codec = Codec(deflate: bytes -> bytes, inflate: bytes -> Option<bytes>)

  /** The texts whose compressed form the mangler keeps: long enough to try, of identifier characters, and made shorter. */
  predicate Compresses(codec: Codec, d: bytes) {
    IsWord(d) && |d| > COMPRESS_THRESHOLD && |codec.deflate(d)| < |d|
  }

  /** What is relied on of DEFLATE (RFC 1951), on those texts alone: inflating undoes deflating, and the stream does not
      start with a zero byte, which could only open a stored block that is not the last one (section 3.2.3). */
  ghost predicate Lossless(codec: Codec) {
    forall d: bytes | Compresses(codec, d) :: Faithful(codec, d)
  }

  predicate Faithful(codec: Codec, d: bytes) {
    var c := codec.deflate(d);
    c != [] && c[0] != 0 && codec.inflate(c) == Some(d)
  }

  const COMPRESS_THRESHOLD: nat := 64
  const COMPRESSED: byte := 122 // z
  const HEXADECIMAL: byte := 120 // x

  /** Strings short enough for every length printed about them to fit a 64-bit `usize`. */
  const LONGEST: nat := 0x1000_0000_0000_0000

  // ---------------------------------------------------------------------------
  // One segment
  // ---------------------------------------------------------------------------

  function Plain(segment: bytes): bytes {
    if IsIdentifier(segment) then Decimal(|segment|) + segment
    else [HEXADECIMAL] + Counted(|Hex(segment)|) + Hex(segment)
  }

  function MangleSegment(codec: Codec, segment: bytes): bytes {
    if segment == [] then [ZERO]
    else
      var encoded := Plain(segment);
      var compressed := codec.deflate(encoded);
      if |encoded| > COMPRESS_THRESHOLD && |compressed| < |encoded|
      then
        var base63 := Base63.Encode(compressed);
        [COMPRESSED] + Counted(|base63|) + base63
      else encoded
  }

  /** Reads `<len>_` and checks that as many bytes follow; the cursor stays before them. */
  function ReadLength(input: bytes): (r: Reply<nat>)
    ensures |r.rest| <= |input| && (r.Done? ==> r.value <= |r.rest| && |r.rest| < |input|)
  {
    var r := ReadCount(input, USIZE_MAX);
    if r.Done? && |r.rest| < r.value then Failed(Malformed, r.rest) else r
  }

  function DemangleHex(input: bytes): (r: Reply<bytes>)
    ensures |r.rest| <= |input| && (r.Done? ==> Utf8(r.value))
  {
    var length := ReadLength(input);
    if length.Failed? then Failed(length.error, length.rest)
    else
      var n, rest := length.value, length.rest;
      if n % 2 != 0 then Failed(Malformed, rest)
      else
        var segment := ParseHex(rest[..n]);
        if segment.None? then Failed(Malformed, rest)
        else if !Utf8(segment.value) then Failed(Malformed, rest[n..])
        else Done(segment.value, rest[n..])
  }

  function DemangleIdentifier(input: bytes): (r: Reply<bytes>)
    requires input != [] && IsDigit(input[0])
    ensures |r.rest| <= |input| && (r.Done? ==> Utf8(r.value) && |r.rest| < |input|)
  {
    var end := DigitRun(input);
    if end == |input| then Failed(Malformed, input)
    else
      var length := ParseDecimal(input[..end], USIZE_MAX);
      if length.None? then Failed(Malformed, input)
      else
        var n, rest := length.value, input[end..];
        if |rest| < n || !Utf8(rest[..n]) then Failed(Malformed, rest) else Done(rest[..n], rest[n..])
  }

  /** The text inside a compressed segment, leaving the cursor behind the segment. */
  function Unpack(codec: Codec, input: bytes): (r: Reply<bytes>)
    ensures |r.rest| <= |input|
  {
    var length := ReadLength(input);
    if length.Failed? then Failed(length.error, length.rest)
    else
      var n, rest := length.value, length.rest;
      if !Utf8(rest[..n]) then Failed(Malformed, rest)
      else
        var compressed := Base63.Decode(rest[..n]);
        if compressed.None? then Failed(Malformed, rest[n..])
        else
          var encoded := codec.inflate(compressed.value);
          if encoded.None? || !Utf8(encoded.value) then Failed(Malformed, rest[n..])
          else Done(encoded.value, rest[n..])
  }

  /** Reads one segment; `depth` bounds how far compressed segments may nest before the stack is exhausted. */
  function DemangleSegment(codec: Codec, input: bytes, depth: nat): (r: Reply<bytes>)
    ensures |r.rest| <= |input| && (r.Done? ==> Utf8(r.value) && |r.rest| < |input|)
    decreases depth
  {
    if input == [] then Failed(Malformed, input)
    else if input[0] == COMPRESSED then
      var packed := Unpack(codec, input[1..]);
      if packed.Failed? then packed
      else if depth == 0 then Failed(TooDeep, packed.rest)
      else DemangleSegment(codec, packed.value, depth - 1).(rest := packed.rest)
    else if input[0] == HEXADECIMAL then DemangleHex(input[1..])
    else if IsDigit(input[0]) then DemangleIdentifier(input)
    else Failed(Malformed, input)
  }

  /** More stack never changes an answer that was not cut short by it. */
  lemma {:induction false} DeeperAgrees(codec: Codec, input: bytes, depth: nat, deeper: nat)
    requires depth <= deeper
    requires var r := DemangleSegment(codec, input, depth); r.Failed? ==> r.error != TooDeep
    ensures DemangleSegment(codec, input, deeper) == DemangleSegment(codec, input, depth)
    decreases depth
  {
    hide Unpack, DemangleHex, DemangleIdentifier;
    if input != [] && input[0] == COMPRESSED {
      var packed := Unpack(codec, input[1..]);
      if packed.Done? && depth > 0 {
        DeeperAgrees(codec, packed.value, depth - 1, deeper - 1);
      }
    }
  }

  lemma {:induction false} HexFormReads(segment: bytes, r: bytes)
    requires Utf8(segment) && |Hex(segment)| <= USIZE_MAX
    ensures DemangleHex(Counted(|Hex(segment)|) + Hex(segment) + r) == Done(segment, r)
  {
    hide Utf8, ReadCount, Counted, Hex, ParseHex;
    var h := Hex(segment);
    ReadPrinted(|h|, h + r, USIZE_MAX);
    assert Counted(|h|) + h + r == Counted(|h|) + (h + r);
    HexRoundTrip(segment);
    assert (h + r)[..|h|] == h && (h + r)[|h|..] == r;
  }

  lemma {:induction false} IdentifierFormReads(segment: bytes, r: bytes)
    requires Utf8(segment) && |segment| <= USIZE_MAX
    requires segment != [] ==> !IsDigit(segment[0])
    requires segment == [] ==> r != [] && !IsDigit(r[0])
    ensures DemangleIdentifier(Decimal(|segment|) + segment + r) == Done(segment, r)
  {
    hide Utf8, Decimal, ParseDecimal, DigitRun;
    var n := Decimal(|segment|);
    var tail := segment + r;
    DigitRunOf(n, tail);
    assert n + segment + r == n + tail;
    assert (n + tail)[..|n|] == n && (n + tail)[|n|..] == tail;
    ParsePrinted(|segment|, USIZE_MAX);
    assert tail[..|segment|] == segment && tail[|segment|..] == r;
  }

  /** The identifier and hexadecimal forms read back whatever follows them, without any nesting. */
  lemma {:induction false} PlainReads(codec: Codec, segment: bytes, r: bytes, depth: nat)
    requires segment != [] && Utf8(segment) && |segment| <= LONGEST
    ensures DemangleSegment(codec, Plain(segment) + r, depth) == Done(segment, r)
  {
    hide Utf8, DemangleHex, DemangleIdentifier, Hex, Decimal, Counted;
    if IsIdentifier(segment) {
      IdentifierFormReads(segment, r);
      assert (Plain(segment) + r)[0] == Decimal(|segment|)[0];
    } else {
      HexFormReads(segment, r);
      assert (Plain(segment) + r)[1..] == Counted(|Hex(segment)|) + Hex(segment) + r;
    }
  }

  lemma {:induction false} PlainShape(segment: bytes)
    requires segment != [] && |segment| <= LONGEST
    ensures IsWord(Plain(segment)) && Utf8(Plain(segment)) && |Plain(segment)| <= 4 * |segment| + 3
  {
    hide Utf8, Hex, Numeral;
    HexRoundTrip(segment);
    DecimalShape(|segment|);
    DecimalShape(|Hex(segment)|);
    AsciiIsUtf8(Plain(segment));
  }

  lemma {:induction false} DecimalShape(n: nat)
    ensures IsWord(Decimal(n)) && |Decimal(n)| <= n + 1
  {
    if n >= 10 {
      Quotient(n, 10);
      DecimalShape(n / 10);
    }
  }

  /** The compressed form unpacks to the plain form it was made from. */
  lemma {:induction false} PackedReads(codec: Codec, encoded: bytes, r: bytes)
    requires Faithful(codec, encoded) && Utf8(encoded) && |codec.deflate(encoded)| < |encoded| <= 4 * LONGEST + 3
    ensures var base63 := Base63.Encode(codec.deflate(encoded));
      Unpack(codec, Counted(|base63|) + base63 + r) == Done(encoded, r)
  {
    hide ReadCount, Counted, Base63.Encode, Base63.Decode;
    var compressed := codec.deflate(encoded);
    var base63 := Base63.Encode(compressed);
    Base63.EncodeShape(compressed);
    Base63.DecodeEncode(compressed);
    AsciiIsUtf8(base63);
    ReadPrinted(|base63|, base63 + r, USIZE_MAX);
    assert Counted(|base63|) + base63 + r == Counted(|base63|) + (base63 + r);
    assert (base63 + r)[..|base63|] == base63 && (base63 + r)[|base63|..] == r;
  }

  /** One level of nesting is enough for everything the mangler prints, and no following text can disturb it. */
  lemma {:induction false} SegmentRoundTrip(codec: Codec, segment: bytes, r: bytes, depth: nat)
    requires Lossless(codec) && Utf8(segment) && |segment| <= LONGEST && depth >= 1
    requires segment != []
    ensures DemangleSegment(codec, MangleSegment(codec, segment) + r, depth) == Done(segment, r)
  {
    hide Utf8, Plain, Unpack, DemangleHex, DemangleIdentifier, Base63.Encode, Counted;
    var encoded := Plain(segment);
    PlainReads(codec, segment, r, depth);
    PlainReads(codec, segment, [], depth - 1);
    assert encoded + [] == encoded;
    PlainShape(segment);
    if |encoded| > COMPRESS_THRESHOLD && |codec.deflate(encoded)| < |encoded| {
      assert Compresses(codec, encoded) && Faithful(codec, encoded);
      PackedReads(codec, encoded, r);
      var base63 := Base63.Encode(codec.deflate(encoded));
      assert (MangleSegment(codec, segment) + r)[1..] == Counted(|base63|) + base63 + r;
    }
  }

  /** The empty segment prints as a bare zero, so it reads back exactly when something other than a digit follows. */
  lemma {:induction false} EmptySegmentRoundTripIff(codec: Codec, r: bytes, depth: nat)
    ensures DemangleSegment(codec, MangleSegment(codec, []) + r, depth) == Done([], r) <==> r != [] && !IsDigit(r[0])
    ensures r == [] ==> DemangleSegment(codec, MangleSegment(codec, []) + r, depth).Failed?
  {
    var s := [ZERO] + r;
    if r != [] && !IsDigit(r[0]) {
      assert Decimal(0) == [ZERO];
      IdentifierFormReads([], r);
      assert Decimal(0) + [] + r == s;
    } else if r == [] {
      DigitRunOf([ZERO], r);
    } else {
      ZeroMergesIntoDigits(codec, r, depth);
    }
  }

  /** A zero in front of a digit is swallowed as a leading zero of the number that follows. */
  lemma {:induction false} ZeroMergesIntoDigits(codec: Codec, t: bytes, depth: nat)
    requires t != [] && IsDigit(t[0])
    ensures var merged, alone := DemangleSegment(codec, [ZERO] + t, depth), DemangleSegment(codec, t, depth);
      if merged.Done? then merged == alone else alone.Failed?
  {
    hide Utf8, ParseDecimal;
    var s := [ZERO] + t;
    var end := DigitRun(t);
    assert s[1..] == t;
    assert DigitRun(s) == end + 1;
    if end < |t| {
      assert s[..end + 1] == [ZERO] + t[..end];
      ParseLeadingZero(t[..end], USIZE_MAX);
      assert s[end + 1..] == t[end..];
    }
  }

  lemma {:induction false} SegmentShape(codec: Codec, segment: bytes)
    requires |segment| <= LONGEST
    ensures MangleSegment(codec, segment) != [] && IsWord(MangleSegment(codec, segment))
  {
    hide Plain, Base63.Encode;
    if segment != [] {
      PlainShape(segment);
      assert segment != [] && |Plain(segment)| >= 1 by { PlainIsNotEmpty(segment); }
      var base63 := Base63.Encode(codec.deflate(Plain(segment)));
      Base63.EncodeShape(codec.deflate(Plain(segment)));
      assert IsWord(Counted(|base63|));
    }
  }

  lemma {:induction false} PlainIsNotEmpty(segment: bytes)
    ensures Plain(segment) != []
  {
  }

  // ---------------------------------------------------------------------------
  // Paths
  // ---------------------------------------------------------------------------

  function MangleSegments(codec: Codec, segments: seq<bytes>): bytes {
    if segments == [] then [] else MangleSegment(codec, segments[0]) + MangleSegments(codec, segments[1..])
  }

  function MangleString(codec: Codec, s: bytes): bytes {
    Counted(|Split(s)|) + MangleSegments(codec, Split(s))
  }

  function DemangleSegments(codec: Codec, input: bytes, count: nat, depth: nat): (r: Reply<seq<bytes>>)
    ensures |r.rest| <= |input|
    ensures r.Done? ==> |r.value| == count && |r.rest| <= |input| - count && forall i | 0 <= i < count :: Utf8(r.value[i])
    decreases count
  {
    if count == 0 then Done([], input)
    else
      var head := DemangleSegment(codec, input, depth);
      if head.Failed? then Failed(head.error, head.rest)
      else
        var tail := DemangleSegments(codec, head.rest, count - 1, depth);
        if tail.Failed? then tail else Done([head.value] + tail.value, tail.rest)
  }

  function DemangleString(codec: Codec, input: bytes, depth: nat): (r: Reply<bytes>)
    ensures |r.rest| <= |input| && (r.Done? ==> |r.rest| < |input| && Utf8(r.value))
  {
    var count := ReadCount(input, USIZE_MAX);
    if count.Failed? then Failed(count.error, count.rest)
    else
      var segments := DemangleSegments(codec, count.rest, count.value, depth);
      if segments.Failed? then Failed(segments.error, segments.rest)
      else
        JoinKeepsUtf8(segments.value);
        Done(Join(segments.value), segments.rest)
  }

  /** Every empty segment is followed by something that is not a digit. */
  predicate Delimited(codec: Codec, segments: seq<bytes>, r: bytes) {
    segments != [] ==>
      var following := MangleSegments(codec, segments[1..]) + r;
      && (segments[0] == [] ==> following != [] && !IsDigit(following[0]))
      && Delimited(codec, segments[1..], r)
  }

  predicate NonEmptySegments(s: bytes) {
    forall i | 0 <= i < |Split(s)| :: Split(s)[i] != []
  }

  predicate Mangleable(segments: seq<bytes>) {
    forall i | 0 <= i < |segments| :: Utf8(segments[i]) && |segments[i]| <= LONGEST
  }

  lemma {:induction false} SegmentsRoundTrip(codec: Codec, segments: seq<bytes>, r: bytes, depth: nat)
    requires Lossless(codec) && Mangleable(segments) && depth >= 1
    requires Delimited(codec, segments, r)
    ensures DemangleSegments(codec, MangleSegments(codec, segments) + r, |segments|, depth) == Done(segments, r)
  {
    hide Utf8, MangleSegment, DemangleSegment, Lossless;
    if segments == [] {
      assert MangleSegments(codec, segments) + r == r;
    } else {
      var following := MangleSegments(codec, segments[1..]) + r;
      assert MangleSegments(codec, segments) + r == MangleSegment(codec, segments[0]) + following;
      if segments[0] == [] {
        EmptySegmentRoundTripIff(codec, following, depth);
      } else {
        SegmentRoundTrip(codec, segments[0], following, depth);
      }
      SegmentsRoundTrip(codec, segments[1..], r, depth);
      assert segments == [segments[0]] + segments[1..];
    }
  }

  /** The bytes a segment can start with. */
  predicate StartsSegment(c: byte) {
    IsDigit(c) || c == HEXADECIMAL || c == COMPRESSED
  }

  /** A number ended by an underscore comes first. */
  predicate CountLed(r: bytes) {
    r != [] && IsDigit(r[0]) && DigitRun(r) < |r| && r[DigitRun(r)] == UNDERSCORE
  }

  /** Where a reader that ran into a text can have stopped: never in front of something that starts no segment, and
      right behind the digits when it took a count for an empty segment. */
  predicate EatsInto(rest: bytes, r: bytes) {
    |rest| < |r| && StartsSegment(r[0]) && (CountLed(r) ==> rest == r[DigitRun(r)..])
  }

  function TotalLength(parts: seq<bytes>): nat {
    if parts == [] then 0 else |parts[0]| + TotalLength(parts[1..])
  }

  lemma {:induction false} JoinLength(parts: seq<bytes>)
    requires parts != []
    ensures |Join(parts)| == TotalLength(parts) + 2 * (|parts| - 1)
  {
    if |parts| > 1 {
      JoinLength(parts[1..]);
    } else {
      assert parts[1..] == [];
    }
  }

  /** A count read as a segment is as long as it says, and an empty one stops right behind its digits. */
  lemma {:induction false} CountReadAsSegment(codec: Codec, r: bytes, depth: nat)
    requires CountLed(r)
    ensures var reply := DemangleSegment(codec, r, depth);
      reply.Done? && reply.value == [] ==> reply.rest == r[DigitRun(r)..]
  {
    hide Utf8, ParseDecimal;
  }

  lemma {:induction false} UnderscoreStartsNothing(codec: Codec, r: bytes, count: nat, depth: nat)
    requires count > 0 && r != [] && !StartsSegment(r[0])
    ensures DemangleSegments(codec, r, count, depth).Failed?
  {
    hide Utf8;
  }

  /** Asking a text that no segment of the path belongs to for segments. */
  lemma {:induction false} OverreadFromRest(codec: Codec, r: bytes, count: nat, depth: nat)
    requires count > 0
    ensures var reply := DemangleSegments(codec, r, count, depth);
      reply.Done? ==>
        && |reply.rest| < |r| && StartsSegment(r[0])
        && (CountLed(r) ==> TotalLength(reply.value) > 0 || reply.rest == r[DigitRun(r)..])
  {
    hide Utf8, DemangleSegment;
    var head := DemangleSegment(codec, r, depth);
    var reply := DemangleSegments(codec, r, count, depth);
    if reply.Done? {
      SegmentStarts(codec, r, depth);
      if CountLed(r) && head.value == [] {
        CountReadAsSegment(codec, r, depth);
        if count > 1 {
          UnderscoreStartsNothing(codec, head.rest, count - 1, depth);
        }
      }
    }
  }

  lemma {:induction false} SegmentStarts(codec: Codec, r: bytes, depth: nat)
    ensures DemangleSegment(codec, r, depth).Done? ==> r != [] && StartsSegment(r[0])
  {
    hide Utf8, Unpack, DemangleHex, DemangleIdentifier;
  }

  /** Asking for more segments than were printed, or for as many when one of them is not delimited, fails or eats into
      what follows; in front of a count, the segments read are then longer, or reading stopped behind its digits. */
  lemma {:induction false} OverreadEatsIntoRest(codec: Codec, segments: seq<bytes>, r: bytes, count: nat, depth: nat)
    requires Lossless(codec) && Mangleable(segments) && depth >= 1
    requires count >= |segments| && (count == |segments| ==> !Delimited(codec, segments, r))
    ensures var reply := DemangleSegments(codec, MangleSegments(codec, segments) + r, count, depth);
      reply.Done? ==>
        && |reply.rest| < |r| && StartsSegment(r[0])
        && (CountLed(r) ==> TotalLength(reply.value) > TotalLength(segments) || reply.rest == r[DigitRun(r)..])
    decreases |segments|
  {
    hide Utf8, MangleSegment, DemangleSegment, Lossless, CountLed, StartsSegment;
    var input := MangleSegments(codec, segments) + r;
    if segments == [] {
      assert input == r;
      OverreadFromRest(codec, r, count, depth);
    } else {
      var following := MangleSegments(codec, segments[1..]) + r;
      assert input == MangleSegment(codec, segments[0]) + following;
      if segments[0] != [] {
        SegmentRoundTrip(codec, segments[0], following, depth);
        OverreadEatsIntoRest(codec, segments[1..], r, count - 1, depth);
      } else {
        EmptySegmentRoundTripIff(codec, following, depth);
        if following != [] && !IsDigit(following[0]) {
          OverreadEatsIntoRest(codec, segments[1..], r, count - 1, depth);
        } else if following != [] {
          OverreadEatsIntoRest(codec, segments[1..], r, count, depth);
          EmptyMangles(codec);
          ZeroMergesIntoDigits(codec, following, depth);
        }
      }
    }
  }

  lemma {:induction false} EmptyMangles(codec: Codec)
    ensures MangleSegment(codec, []) == [ZERO]
  {
  }

  /** A printed path reads back exactly, leaving what follows it untouched, if and only if every empty segment in it
      is followed by something that is not a digit. */
  lemma {:induction false} PathRoundTripIff(codec: Codec, s: bytes, r: bytes, depth: nat)
    requires Lossless(codec) && Utf8(s) && |s| <= LONGEST && depth >= 1
    ensures DemangleString(codec, MangleString(codec, s) + r, depth) == Done(s, r) <==> Delimited(codec, Split(s), r)
  {
    hide Utf8, MangleSegment, MangleSegments, DemangleSegments, Lossless, Delimited, ReadCount, Counted, Split;
    var segments := Split(s);
    SplitKeepsUtf8(s);
    var body := MangleSegments(codec, segments);
    ReadPrinted(|segments|, body + r, USIZE_MAX);
    assert MangleString(codec, s) + r == Counted(|segments|) + (body + r);
    JoinOfSplit(s);
    if Delimited(codec, segments, r) {
      SegmentsRoundTrip(codec, segments, r, depth);
    } else {
      OverreadEatsIntoRest(codec, segments, r, |segments|, depth);
    }
  }

  /** Where reading a path that is not delimited goes: it fails, yields another path, or eats into what follows. */
  lemma {:induction false} PathGoesAstray(codec: Codec, s: bytes, r: bytes, depth: nat)
    requires Lossless(codec) && Utf8(s) && |s| <= LONGEST && depth >= 1
    requires !Delimited(codec, Split(s), r)
    ensures var reply := DemangleString(codec, MangleString(codec, s) + r, depth);
      reply.Failed? || reply.value != s || EatsInto(reply.rest, r)
  {
    hide Utf8, MangleSegment, MangleSegments, DemangleSegments, Lossless, Delimited, ReadCount, Counted, Split, TotalLength,
      Join, CountLed, StartsSegment;
    var segments := Split(s);
    SplitKeepsUtf8(s);
    var body := MangleSegments(codec, segments);
    ReadPrinted(|segments|, body + r, USIZE_MAX);
    assert MangleString(codec, s) + r == Counted(|segments|) + (body + r);
    OverreadEatsIntoRest(codec, segments, r, |segments|, depth);
    var read := DemangleSegments(codec, body + r, |segments|, depth);
    if read.Done? {
      JoinOfSplit(s);
      JoinLength(segments);
      JoinLength(read.value);
    }
  }

  // ---- texts that complete a path ----

  lemma {:induction false} EmptyLastIsNotDelimited(codec: Codec, segments: seq<bytes>, r: bytes)
    requires segments != [] && segments[|segments| - 1] == [] && (r == [] || IsDigit(r[0]))
    ensures !Delimited(codec, segments, r)
  {
    if |segments| == 1 {
      assert MangleSegments(codec, segments[1..]) + r == r;
    } else {
      EmptyLastIsNotDelimited(codec, segments[1..], r);
    }
  }

  /** A zero behind a path that ends in an empty segment is swallowed by that segment. */
  lemma {:induction false} ZeroIsSwallowed(codec: Codec, segments: seq<bytes>, r: bytes, depth: nat)
    requires Lossless(codec) && Mangleable(segments) && depth >= 1
    requires segments != [] && segments[|segments| - 1] == [] && Delimited(codec, segments, r)
    requires r != [] && !IsDigit(r[0])
    ensures DemangleSegments(codec, MangleSegments(codec, segments) + ([ZERO] + r), |segments|, depth) == Done(segments, r)
    decreases |segments|
  {
    hide Utf8, MangleSegment, DemangleSegment, Lossless;
    var tail := [ZERO] + r;
    var following := MangleSegments(codec, segments[1..]) + tail;
    assert MangleSegments(codec, segments) + tail == MangleSegment(codec, segments[0]) + following;
    EmptyMangles(codec);
    if |segments| == 1 {
      assert following == tail && segments == [[]];
      EmptySegmentRoundTripIff(codec, r, depth);
      ZeroMergesIntoDigits(codec, tail, depth);
      assert DemangleSegment(codec, [ZERO] + tail, depth) == Done([], r);
      var none: seq<bytes> := [];
      assert DemangleSegments(codec, r, 0, depth) == Done(none, r) && segments == [segments[0]] + none;
    } else {
      var rest := MangleSegments(codec, segments[1..]);
      SegmentShape(codec, segments[1]);
      assert rest != [] && (rest + r)[0] == rest[0] == following[0];
      if segments[0] == [] {
        EmptySegmentRoundTripIff(codec, following, depth);
      } else {
        SegmentRoundTrip(codec, segments[0], following, depth);
      }
      ZeroIsSwallowed(codec, segments[1..], r, depth);
      assert segments == [segments[0]] + segments[1..];
    }
  }

  /** Zeros, possibly none, and then something that is not a digit. */
  predicate ZerosThenOther(r: bytes) {
    var end := DigitRun(r);
    end < |r| && forall i | 0 <= i < end :: r[i] == ZERO
  }

  /** A printed empty segment reads back as empty, in front of a text, exactly when that text is a run of zeros and then
      something that is not a digit. */
  lemma {:induction false} ZeroReadsEmptyIff(codec: Codec, r: bytes, depth: nat)
    ensures var reply := DemangleSegment(codec, [ZERO] + r, depth);
      reply.Done? && reply.value == [] <==> ZerosThenOther(r)
  {
    hide Utf8, Value;
    var s := [ZERO] + r;
    var end := DigitRun(r);
    assert s[1..] == r;
    assert DigitRun(s) == end + 1;
    if end < |r| {
      var digits := r[..end];
      assert s[..end + 1] == [ZERO] + digits;
      assert DigitsOf([ZERO] + digits) == [0] + DigitsOf(digits);
      LeadingZero(DigitsOf(digits), 10);
      ValueIsZeroIff(DigitsOf(digits), 10);
      assert (forall i | 0 <= i < end :: DigitsOf(digits)[i] == 0) <==> forall i | 0 <= i < end :: r[i] == ZERO;
      assert s[end + 1..][..0] == [];
      Utf8Empty();
    }
  }

  lemma {:induction false} Utf8Empty()
    ensures Utf8([])
  {
  }

  /** When only a trailing empty segment can go wrong, reading reaches it with everything before it intact. */
  lemma {:induction false} TrailingEmptyReads(codec: Codec, segments: seq<bytes>, r: bytes, depth: nat)
    requires Lossless(codec) && Mangleable(segments) && depth >= 1
    requires segments != [] && segments[|segments| - 1] == [] && Delimited(codec, segments, [UNDERSCORE])
    ensures var reply := DemangleSegments(codec, MangleSegments(codec, segments) + r, |segments|, depth);
      var last := DemangleSegment(codec, [ZERO] + r, depth);
      if last.Done? then reply == Done(segments[..|segments| - 1] + [last.value], last.rest) else reply.Failed?
    decreases |segments|
  {
    hide Utf8, MangleSegment, DemangleSegment, Lossless;
    var following := MangleSegments(codec, segments[1..]) + r;
    assert MangleSegments(codec, segments) + r == MangleSegment(codec, segments[0]) + following;
    EmptyMangles(codec);
    if |segments| == 1 {
      var none: seq<bytes> := [];
      assert following == r && segments[..0] == none;
      var last := DemangleSegment(codec, [ZERO] + r, depth);
      assert last.Done? ==>
        DemangleSegments(codec, last.rest, 0, depth) == Done(none, last.rest) && [last.value] + none == none + [last.value];
    } else {
      var rest := MangleSegments(codec, segments[1..]);
      SegmentShape(codec, segments[1]);
      assert rest != [] && (rest + [UNDERSCORE])[0] == rest[0] == following[0];
      if segments[0] == [] {
        EmptySegmentRoundTripIff(codec, following, depth);
      } else {
        SegmentRoundTrip(codec, segments[0], following, depth);
      }
      TrailingEmptyReads(codec, segments[1..], r, depth);
      var n := |segments| - 1;
      assert segments[..n] == [segments[0]] + segments[1..][..n - 1];
      assert forall v: bytes :: [segments[0]] + (segments[1..][..n - 1] + [v]) == segments[..n] + [v];
    }
  }

  lemma {:induction false} TotalLengthAppend(parts: seq<bytes>, part: bytes)
    ensures TotalLength(parts + [part]) == TotalLength(parts) + |part|
  {
    if parts == [] {
      assert parts + [part] == [part] && [part][1..] == [];
    } else {
      assert (parts + [part])[1..] == parts[1..] + [part];
      TotalLengthAppend(parts[1..], part);
    }
  }

  /** A path whose only segment that is not delimited is a trailing empty one is read, in front of a text, exactly when
      that text is a run of zeros and then something that is not a digit. */
  lemma {:induction false} TrailingEmptyPathIff(codec: Codec, s: bytes, r: bytes, depth: nat)
    requires Lossless(codec) && Utf8(s) && |s| <= LONGEST && depth >= 1
    requires Split(s)[|Split(s)| - 1] == [] && Delimited(codec, Split(s), [UNDERSCORE])
    ensures var reply := DemangleString(codec, MangleString(codec, s) + r, depth);
      reply.Done? && reply.value == s <==> ZerosThenOther(r)
  {
    hide Utf8, MangleSegments, DemangleSegments, DemangleSegment, Lossless, Delimited, ReadCount, Counted, Split,
      TotalLength, Join, ZerosThenOther;
    var segments := Split(s);
    var n := |segments| - 1;
    SplitKeepsUtf8(s);
    JoinOfSplit(s);
    var body := MangleSegments(codec, segments);
    ReadPrinted(n + 1, body + r, USIZE_MAX);
    assert MangleString(codec, s) + r == Counted(n + 1) + (body + r);
    TrailingEmptyReads(codec, segments, r, depth);
    ZeroReadsEmptyIff(codec, r, depth);
    var last := DemangleSegment(codec, [ZERO] + r, depth);
    if last.Done? {
      assert segments[..n] + [segments[n]] == segments;
      JoinLength(segments);
      JoinLength(segments[..n] + [last.value]);
      TotalLengthAppend(segments[..n], []);
      TotalLengthAppend(segments[..n], last.value);
    }
  }

  lemma {:induction false} NonEmptyIsDelimited(codec: Codec, segments: seq<bytes>, r: bytes)
    requires forall i | 0 <= i < |segments| :: segments[i] != []
    ensures Delimited(codec, segments, r)
  {
    if segments != [] {
      NonEmptyIsDelimited(codec, segments[1..], r);
    }
  }

  /** Paths of non-empty segments are self-delimiting: any suffix may follow. */
  lemma {:induction false} PathRoundTrip(codec: Codec, s: bytes, r: bytes, depth: nat)
    requires Lossless(codec) && Utf8(s) && |s| <= LONGEST && depth >= 1
    requires NonEmptySegments(s)
    ensures DemangleString(codec, MangleString(codec, s) + r, depth) == Done(s, r)
  {
    hide Delimited, DemangleString, MangleString, Utf8;
    NonEmptyIsDelimited(codec, Split(s), r);
    PathRoundTripIff(codec, s, r, depth);
  }

  lemma {:induction false} PathShape(codec: Codec, s: bytes)
    requires Utf8(s) && |s| <= LONGEST
    ensures IsWord(MangleString(codec, s)) && MangleString(codec, s) != [] && IsDigit(MangleString(codec, s)[0])
  {
    hide Utf8, MangleSegments, Split;
    SplitKeepsUtf8(s);
    SegmentsShape(codec, Split(s));
    DecimalShape(|Split(s)|);
  }

  lemma {:induction false} SegmentsShape(codec: Codec, segments: seq<bytes>)
    requires forall i | 0 <= i < |segments| :: |segments[i]| <= LONGEST
    ensures IsWord(MangleSegments(codec, segments))
  {
    hide MangleSegment;
    if segments != [] {
      SegmentShape(codec, segments[0]);
      SegmentsShape(codec, segments[1..]);
    }
  }
}
