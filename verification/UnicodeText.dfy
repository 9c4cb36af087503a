/** UTF-8 as its standard defines it: the strings the mangler calls UTF-8 are the encodings of sequences of scalar values. */
module UnicodeText {
  import opened Wrappers
  import opened Text

  /** Every code point that is not a surrogate. */
  type Scalar = c: int | 0 <= c < 0xD800 || 0xE000 <= c < 0x11_0000

  /** The table of section 3 of RFC 3629. */
  function EncodeScalar(c: Scalar): (s: bytes)
    ensures 1 <= |s| <= 4
  {
    if c < 0x80 then [c]
    else if c < 0x800 then [0xC0 + c / 0x40, 0x80 + c % 0x40]
    else if c < 0x1_0000 then [0xE0 + c / 0x40 / 0x40, 0x80 + c / 0x40 % 0x40, 0x80 + c % 0x40]
    else [0xF0 + c / 0x40 / 0x40 / 0x40, 0x80 + c / 0x40 / 0x40 % 0x40, 0x80 + c / 0x40 % 0x40, 0x80 + c % 0x40]
  }

  function Encode(cs: seq<Scalar>): bytes {
    if cs == [] then [] else EncodeScalar(cs[0]) + Encode(cs[1..])
  }

  /** The scalar value whose encoding opens a string. */
  lemma {:induction false} FirstScalar(s: bytes) returns (c: Scalar)
    requires CharLength(s) > 0
    ensures EncodeScalar(c) == s[..CharLength(s)]
  {
    var n := CharLength(s);
    if n == 1 {
      c := s[0];
    } else if n == 2 {
      c := TwoBytes(s[0], s[1]);
    } else if n == 3 {
      c := ThreeBytes(s[0], s[1], s[2]);
    } else {
      c := FourBytes(s[0], s[1], s[2], s[3]);
    }
  }

  lemma {:induction false} TwoBytes(a: int, b: int) returns (c: Scalar)
    requires 0xC2 <= a <= 0xDF && 0x80 <= b <= 0xBF
    ensures EncodeScalar(c) == [a, b]
  {
    c := (a - 0xC0) * 0x40 + (b - 0x80);
  }

  lemma {:induction false} ThreeBytes(a: int, b: int, d: int) returns (c: Scalar)
    requires 0xE0 <= a <= 0xEF && 0x80 <= b <= 0xBF && 0x80 <= d <= 0xBF
    requires (a == 0xE0 ==> b >= 0xA0) && (a == 0xED ==> b <= 0x9F)
    ensures EncodeScalar(c) == [a, b, d]
  {
    var high: int := (a - 0xE0) * 0x40 + (b - 0x80);
    c := high * 0x40 + (d - 0x80);
    assert c / 0x40 == high && high / 0x40 == a - 0xE0;
  }

  lemma {:induction false} FourBytes(a: int, b: int, d: int, e: int) returns (c: Scalar)
    requires 0xF0 <= a <= 0xF4 && 0x80 <= b <= 0xBF && 0x80 <= d <= 0xBF && 0x80 <= e <= 0xBF
    requires (a == 0xF0 ==> b >= 0x90) && (a == 0xF4 ==> b <= 0x8F)
    ensures EncodeScalar(c) == [a, b, d, e]
  {
    var high: int := (a - 0xF0) * 0x40 + (b - 0x80);
    var middle: int := high * 0x40 + (d - 0x80);
    c := middle * 0x40 + (e - 0x80);
    assert c / 0x40 == middle && middle / 0x40 == high && high / 0x40 == a - 0xF0;
  }

  lemma {:induction false} LengthOfScalar(c: Scalar, r: bytes)
    ensures CharLength(EncodeScalar(c) + r) == |EncodeScalar(c)|
  {
    var e := EncodeScalar(c);
    var s := e + r;
    assert forall i | 0 <= i < |e| :: s[i] == e[i];
  }

  /** A string is UTF-8 exactly when it is the encoding of some scalar values. */
  lemma {:induction false} Utf8Iff(s: bytes)
    ensures Utf8(s) <==> exists cs :: Encode(cs) == s
  {
    if Utf8(s) {
      var cs := Decoded(s);
    }
    if cs :| Encode(cs) == s {
      EncodedIsUtf8(cs);
    }
  }

  lemma {:induction false} Decoded(s: bytes) returns (cs: seq<Scalar>)
    requires Utf8(s)
    ensures Encode(cs) == s
    decreases |s|
  {
    hide EncodeScalar, CharLength;
    if s == [] {
      cs := [];
    } else {
      var n := CharLength(s);
      var c := FirstScalar(s);
      var rest := Decoded(s[n..]);
      cs := [c] + rest;
      assert cs[1..] == rest;
      assert s == s[..n] + s[n..];
    }
  }

  lemma {:induction false} EncodedIsUtf8(cs: seq<Scalar>)
    ensures Utf8(Encode(cs))
  {
    hide EncodeScalar, CharLength;
    if cs != [] {
      var e, r := EncodeScalar(cs[0]), Encode(cs[1..]);
      EncodedIsUtf8(cs[1..]);
      LengthOfScalar(cs[0], r);
      assert (e + r)[|e|..] == r;
    }
  }
}
