/** Big numbers in base 63, over the letters, digits and underscore of C identifiers. */
module Base63 {
  import opened Wrappers
  import opened Numerals
  import opened Text

  function DigitByte(d: nat): byte
    requires d < 63
  {
    if d < 26 then d + 65 else if d < 52 then d - 26 + 97 else if d < 62 then d - 52 + 48 else UNDERSCORE
  }

  function ByteDigit(c: byte): nat
    requires IsWordByte(c)
  {
    if 65 <= c <= 90 then c - 65 else if 97 <= c <= 122 then c - 97 + 26 else if c == UNDERSCORE then 62 else c - 48 + 52
  }

  function Letters(ds: seq<nat>): (s: bytes)
    requires Digits(ds, 63)
    ensures |s| == |ds| && forall i | 0 <= i < |s| :: s[i] == DigitByte(ds[i])
  {
    seq(|ds|, i requires 0 <= i < |ds| => DigitByte(ds[i]))
  }

  function LetterDigits(s: bytes): (ds: seq<nat>)
    requires IsWord(s)
    ensures |ds| == |s| && Digits(ds, 63) && forall i | 0 <= i < |s| :: ds[i] == ByteDigit(s[i])
  {
    seq(|s|, i requires 0 <= i < |s| => ByteDigit(s[i]))
  }

  lemma {:induction false} LettersReadBack(ds: seq<nat>)
    requires Digits(ds, 63)
    ensures IsWord(Letters(ds)) && LetterDigits(Letters(ds)) == ds
  {
    assert forall i | 0 <= i < |ds| :: IsWordByte(DigitByte(ds[i])) && ByteDigit(DigitByte(ds[i])) == ds[i];
  }

  lemma {:induction false} DigitsReadBack(s: bytes)
    requires IsWord(s)
    ensures Letters(LetterDigits(s)) == s
  {
    assert forall i | 0 <= i < |s| :: DigitByte(ByteDigit(s[i])) == s[i];
  }

  /** The number the bytes denote in base 256, written in base 63. */
  function Encode(data: bytes): bytes {
    if data == [] then [] else Letters(Numeral(Value(data, 256), 63))
  }

  /** The number the letters denote in base 63, written in base 256. */
  function Decode(s: bytes): Option<bytes> {
    if !IsWord(s) then None
    else if s == [] then Some([])
    else Some(Numeral(Value(LetterDigits(s), 63), 256))
  }

  /** Decoding undoes encoding up to leading zero bytes, so exactly on strings that have none to lose. */
  lemma {:induction false} DecodeEncode(data: bytes)
    ensures Decode(Encode(data)) == Some(StripZeros(data))
    ensures Decode(Encode(data)) == Some(data) <==> data == [] || Canonical(data)
  {
    if data != [] {
      var ds := Numeral(Value(data, 256), 63);
      LettersReadBack(ds);
      NumeralDenotes(Value(data, 256), 63);
      NumeralOfValue(data, 256);
      StripZerosFixes(data);
    }
  }

  lemma {:induction false} StripZerosFixes(ds: seq<nat>)
    ensures |StripZeros(ds)| <= |ds|
    ensures StripZeros(ds) == ds <==> ds == [] || Canonical(ds)
  {
    if |ds| > 1 && ds[0] == 0 {
      StripZerosFixes(ds[1..]);
    }
  }

  /** Encoding undoes decoding exactly on the encoder's own spelling, which has no leading zero digit. */
  lemma {:induction false} EncodeDecode(s: bytes)
    requires IsWord(s)
    ensures Decode(s).Some?
    ensures Encode(Decode(s).value) == s <==> s == [] || |s| == 1 || s[0] != DigitByte(0)
  {
    if s != [] {
      var ds := LetterDigits(s);
      var n := Value(ds, 63);
      NumeralDenotes(n, 256);
      LettersReadBack(Numeral(n, 63));
      DigitsReadBack(s);
      if Canonical(ds) {
        CanonicalIsNumeral(ds, 63);
      }
    }
  }

  /** The encoding uses only identifier characters, and at most two of them a byte and one more. */
  lemma {:induction false} EncodeShape(data: bytes)
    ensures IsWord(Encode(data)) && |Encode(data)| <= 2 * |data| + 1
  {
    if data != [] {
      LettersReadBack(Numeral(Value(data, 256), 63));
      NumeralLength(data);
    }
  }

  lemma {:induction false} NumeralLength(data: bytes)
    ensures |Numeral(Value(data, 256), 63)| <= 2 * |data| + 1
  {
    if data != [] {
      var high, low := Value(data[..|data| - 1], 256), data[|data| - 1];
      NumeralLength(data[..|data| - 1]);
      var n := high * 256 + low;
      Quotient(n, 63);
      Quotient(n / 63, 63);
      assert n / 63 / 63 <= high;
      LongerIsLarger(n / 63 / 63, high, 63);
    }
  }

  // ---------------------------------------------------------------------------
  // The conversion loops
  // ---------------------------------------------------------------------------

  method EncodeC99Base63(data: bytes) returns (s: bytes)
    ensures s == Encode(data)
  {
    if data == [] {
      return [];
    }
    var digits := Convert(data, 256, 63);
    return Letters(Reversed(digits));
  }

  method DecodeC99Base63(s: bytes) returns (r: Option<bytes>)
    ensures r == Decode(s)
  {
    if s == [] {
      return Some([]);
    }
    var values: seq<nat> := [];
    for i := 0 to |s|
      invariant IsWord(s[..i]) && values == LetterDigits(s[..i])
    {
      if !IsWordByte(s[i]) {
        return None;
      }
      values := values + [ByteDigit(s[i])];
    }
    assert s[..|s|] == s;
    var digits := Convert(values, 63, 256);
    return Some(Reversed(digits));
  }
}
