/** Byte strings: UTF-8, identifiers of the C language, decimal and hexadecimal notation, paths and cursors over them. */
module Text {
  import opened Wrappers
  import opened Numerals

  /** What a reader returns: its value, or an error, and in both cases where it leaves the cursor. */
  datatype Reply<+T> = Done(value: T, rest: bytes) | Failed(error: Failure, rest: bytes)
  datatype Failure = Malformed | TooDeep

  const PLUS: byte := 43
  const ZERO: byte := 48
  const COLON: byte := 58
  const UNDERSCORE: byte := 95

  const U32_MAX: nat := 0xFFFF_FFFF
  const USIZE_MAX: nat := 0xFFFF_FFFF_FFFF_FFFF

  predicate IsDigit(c: byte) {
    48 <= c <= 57
  }

  predicate IsLetter(c: byte) {
    65 <= c <= 90 || 97 <= c <= 122
  }

  /** The characters of section 6.4.2.1 of ISO/IEC 9899:1999. */
  predicate IsWordByte(c: byte) {
    IsLetter(c) || IsDigit(c) || c == UNDERSCORE
  }

  predicate IsWord(s: bytes) {
    forall i | 0 <= i < |s| :: IsWordByte(s[i])
  }

  predicate IsIdentifier(s: bytes) {
    s != [] && !IsDigit(s[0]) && IsWord(s)
  }

  // ---------------------------------------------------------------------------
  // UTF-8
  // ---------------------------------------------------------------------------

  predicate Continues(s: bytes, i: nat) {
    i < |s| && 0x80 <= s[i] <= 0xBF
  }

  /** The length of the character a string starts with; zero when it starts with no well-formed character. */
  function CharLength(s: bytes): (n: nat)
    ensures n <= |s|
  {
    if s == [] then 0
    else if s[0] < 0x80 then 1
    else if 0xC2 <= s[0] <= 0xDF && Continues(s, 1) then 2
    else if 0xE0 <= s[0] <= 0xEF && Continues(s, 1) && Continues(s, 2)
      && (s[0] == 0xE0 ==> s[1] >= 0xA0) && (s[0] == 0xED ==> s[1] <= 0x9F) then 3
    else if 0xF0 <= s[0] <= 0xF4 && Continues(s, 1) && Continues(s, 2) && Continues(s, 3)
      && (s[0] == 0xF0 ==> s[1] >= 0x90) && (s[0] == 0xF4 ==> s[1] <= 0x8F) then 4
    else 0
  }

  predicate Utf8(s: bytes) {
    s == [] || (CharLength(s) > 0 && Utf8(s[CharLength(s)..]))
  }

  /** Cutting a string at an ASCII character cuts no character in two. */
  lemma {:induction false} Utf8Cut(a: bytes, c: byte, b: bytes)
    requires c < 0x80
    ensures Utf8(a + [c] + b) <==> Utf8(a) && Utf8(b)
    decreases |a|
  {
    var s := a + [c] + b;
    if a == [] {
      assert s[1..] == b;
    } else {
      var n := CharLength(s);
      assert s[|a|] == c;
      assert n <= |a|;
      assert n == CharLength(a);
      if n > 0 {
        assert s[n..] == a[n..] + [c] + b;
        Utf8Cut(a[n..], c, b);
      }
    }
  }

  lemma {:induction false} AsciiIsUtf8(s: bytes)
    requires forall i | 0 <= i < |s| :: s[i] < 0x80
    ensures Utf8(s)
  {
    if s != [] {
      AsciiIsUtf8(s[1..]);
    }
  }

  // ---------------------------------------------------------------------------
  // Decimal notation
  // ---------------------------------------------------------------------------

  function Shown(ds: seq<nat>): (s: bytes)
    requires Digits(ds, 10)
    ensures |s| == |ds| && forall i | 0 <= i < |s| :: s[i] == ds[i] + 48
  {
    seq(|ds|, i requires 0 <= i < |ds| => ds[i] + 48)
  }

  predicate AllDigits(s: bytes) {
    forall i | 0 <= i < |s| :: IsDigit(s[i])
  }

  function DigitsOf(s: bytes): (ds: seq<nat>)
    requires AllDigits(s)
    ensures Digits(ds, 10) && |ds| == |s| && forall i | 0 <= i < |s| :: ds[i] == s[i] - 48
  {
    seq(|s|, i requires 0 <= i < |s| => s[i] - 48)
  }

  function Decimal(n: nat): (s: bytes)
    ensures s != [] && AllDigits(s)
  {
    Shown(Numeral(n, 10))
  }

  /** Parsing as the standard library does it: one optional plus sign, leading zeros allowed, overflow an error. */
  function ParseDecimal(s: bytes, max: nat): Option<nat> {
    var digits := if |s| > 1 && s[0] == PLUS then s[1..] else s;
    if digits == [] || !AllDigits(digits) then None
    else if Value(DigitsOf(digits), 10) > max then None
    else Some(Value(DigitsOf(digits), 10))
  }

  lemma {:induction false} ParsePrinted(n: nat, max: nat)
    ensures ParseDecimal(Decimal(n), max) == if n <= max then Some(n) else None
  {
    var s := Decimal(n);
    assert IsDigit(s[0]);
    assert DigitsOf(s) == Numeral(n, 10);
    NumeralDenotes(n, 10);
  }

  lemma {:induction false} ParseLeadingZero(s: bytes, max: nat)
    requires s != [] && AllDigits(s)
    ensures ParseDecimal([ZERO] + s, max) == ParseDecimal(s, max)
  {
    var z := [ZERO] + s;
    assert IsDigit(s[0]);
    assert DigitsOf(z) == [0] + DigitsOf(s);
    LeadingZero(DigitsOf(s), 10);
  }

  // ---- cursors ----

  /** The position of the first byte of a kind, or the end. */
  function Find(s: bytes, c: byte): (i: nat)
    ensures i <= |s| && (i < |s| ==> s[i] == c) && forall k | 0 <= k < i :: s[k] != c
  {
    if s == [] || s[0] == c then 0 else 1 + Find(s[1..], c)
  }

  function DigitRun(s: bytes): (i: nat)
    ensures i <= |s| && (i < |s| ==> !IsDigit(s[i])) && AllDigits(s[..i])
  {
    if s == [] || !IsDigit(s[0]) then 0
    else
      var n := DigitRun(s[1..]);
      assert s[..n + 1] == [s[0]] + s[1..][..n];
      1 + n
  }

  /** A decimal number ended by an underscore. */
  function ReadCount(s: bytes, max: nat): (r: Reply<nat>)
    ensures |r.rest| <= |s| && (r.Done? ==> r.value <= max && |r.rest| < |s|)
  {
    var end := Find(s, UNDERSCORE);
    if end == |s| then Failed(Malformed, s)
    else
      var n := ParseDecimal(s[..end], max);
      if n.None? then Failed(Malformed, s) else Done(n.value, s[end + 1..])
  }

  function Counted(n: nat): bytes {
    Decimal(n) + [UNDERSCORE]
  }

  lemma {:induction false} FindAfter(a: bytes, c: byte, r: bytes)
    requires c !in a
    ensures Find(a + [c] + r, c) == |a|
  {
    var s := a + [c] + r;
    assert s[|a|] == c;
    assert forall k | 0 <= k < |a| :: s[k] == a[k];
  }

  /** A printed count reads back exactly, whatever follows it, when it fits; otherwise it is an error. */
  lemma {:induction false} ReadPrinted(n: nat, r: bytes, max: nat)
    ensures ReadCount(Counted(n) + r, max) == if n <= max then Done(n, r) else Failed(Malformed, Counted(n) + r)
  {
    var s := Counted(n) + r;
    assert forall i | 0 <= i < |Decimal(n)| :: IsDigit(Decimal(n)[i]);
    FindAfter(Decimal(n), UNDERSCORE, r);
    assert s == Decimal(n) + [UNDERSCORE] + r;
    assert s[..|Decimal(n)|] == Decimal(n);
    assert s[|Decimal(n)| + 1..] == r;
    ParsePrinted(n, max);
  }

  lemma {:induction false} DigitRunOf(a: bytes, r: bytes)
    requires AllDigits(a) && (r != [] ==> !IsDigit(r[0]))
    ensures DigitRun(a + r) == |a|
  {
    if a == [] {
      assert a + r == r;
    } else {
      assert (a + r)[1..] == a[1..] + r;
      DigitRunOf(a[1..], r);
    }
  }

  // ---------------------------------------------------------------------------
  // Hexadecimal notation
  // ---------------------------------------------------------------------------

  function HexDigit(n: nat): byte
    requires n < 16
  {
    if n < 10 then n + 48 else n + 87
  }

  function HexValue(c: byte): (v: Option<nat>)
    ensures v.Some? ==> v.value < 16
  {
    if IsDigit(c) then Some(c - 48)
    else if 97 <= c <= 102 then Some(c - 87)
    else if 65 <= c <= 70 then Some(c - 55)
    else None
  }

  lemma {:induction false} HexDigitReads(n: nat)
    requires n < 16
    ensures HexValue(HexDigit(n)) == Some(n) && IsWordByte(HexDigit(n))
  {
  }

  function Hex(s: bytes): (h: bytes)
    ensures |h| == 2 * |s|
  {
    if s == [] then [] else [HexDigit(s[0] / 16), HexDigit(s[0] % 16)] + Hex(s[1..])
  }

  function ParseHex(h: bytes): Option<bytes>
    requires |h| % 2 == 0
  {
    if h == [] then Some([])
    else
      var hi, lo, tail := HexValue(h[0]), HexValue(h[1]), ParseHex(h[2..]);
      if hi.None? || lo.None? || tail.None? then None else Some([16 * hi.value + lo.value] + tail.value)
  }

  lemma {:induction false} HexRoundTrip(s: bytes)
    ensures ParseHex(Hex(s)) == Some(s) && IsWord(Hex(s))
  {
    if s != [] {
      HexRoundTrip(s[1..]);
      var h := Hex(s);
      assert h[2..] == Hex(s[1..]);
      HexDigitReads(s[0] / 16);
      HexDigitReads(s[0] % 16);
      assert [s[0]] + s[1..] == s;
      assert forall i | 2 <= i < |h| :: h[i] == Hex(s[1..])[i - 2];
    }
  }

  // ---------------------------------------------------------------------------
  // Paths
  // ---------------------------------------------------------------------------

  const SEPARATOR: bytes := [COLON, COLON]

  /** The position of the first separator, or the length when there is none. */
  function FindSeparator(s: bytes): (i: nat)
    ensures i <= |s| && (i < |s| ==> i + 2 <= |s| && s[i] == COLON && s[i + 1] == COLON)
  {
    if |s| < 2 then |s|
    else if s[0] == COLON && s[1] == COLON then 0
    else 1 + FindSeparator(s[1..])
  }

  function Split(s: bytes): (parts: seq<bytes>)
    ensures parts != []
    decreases |s|
  {
    var i := FindSeparator(s);
    if i == |s| then [s] else [s[..i]] + Split(s[i + 2..])
  }

  function Join(parts: seq<bytes>): bytes {
    if parts == [] then [] else if |parts| == 1 then parts[0] else parts[0] + SEPARATOR + Join(parts[1..])
  }

  lemma {:induction false} JoinOfSplit(s: bytes)
    ensures Join(Split(s)) == s
    decreases |s|
  {
    var i := FindSeparator(s);
    if i < |s| {
      JoinOfSplit(s[i + 2..]);
      assert Split(s)[1..] == Split(s[i + 2..]);
      assert s == s[..i] + SEPARATOR + s[i + 2..];
    }
  }

  /** Every segment of a UTF-8 path is UTF-8, and no longer than the path. */
  lemma {:induction false} SplitKeepsUtf8(s: bytes)
    requires Utf8(s)
    ensures forall i | 0 <= i < |Split(s)| :: Utf8(Split(s)[i]) && |Split(s)[i]| <= |s|
    ensures |Split(s)| <= |s| + 1
    decreases |s|
  {
    var i := FindSeparator(s);
    if i < |s| {
      assert s == s[..i] + [COLON] + s[i + 1..];
      Utf8Cut(s[..i], COLON, s[i + 1..]);
      assert s[i + 1..] == [] + [COLON] + s[i + 2..];
      Utf8Cut([], COLON, s[i + 2..]);
      SplitKeepsUtf8(s[i + 2..]);
    }
  }

  lemma {:induction false} JoinKeepsUtf8(parts: seq<bytes>)
    requires forall i | 0 <= i < |parts| :: Utf8(parts[i])
    ensures Utf8(Join(parts))
  {
    if |parts| > 1 {
      var tail := Join(parts[1..]);
      JoinKeepsUtf8(parts[1..]);
      assert [COLON] + tail == [] + [COLON] + tail;
      Utf8Cut([], COLON, tail);
      assert Join(parts) == parts[0] + [COLON] + ([COLON] + tail);
      Utf8Cut(parts[0], COLON, [COLON] + tail);
    }
  }
}
