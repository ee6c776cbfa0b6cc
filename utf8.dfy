/**
 * UTF-8 as defined in section 3 of RFC 3629, the encoding behind Rust's
 * `String::into_bytes` and `String::from_utf8`. Dafny's `char` is a Unicode
 * scalar value, exactly the set of values a Rust `char` can hold.
 */
module Utf8 {
  import opened Wrappers

  /** An octet. */
  type byte = b: int | 0 <= b < 256

  /** A continuation octet `10xxxxxx`. */
  predicate IsTail(b: byte) {
    0x80 <= b < 0xC0
  }

  /** The one to four octets that encode `c`. */
  function EncodeChar(c: char): (r: seq<byte>)
    ensures 1 <= |r| <= 4
    ensures (|r| == 1) == (c as int < 0x80)
  {
    var cp := c as int;
    if cp < 0x80 then [cp]
    else if cp < 0x800 then [0xC0 + cp / 64, 0x80 + cp % 64]
    else if cp < 0x10000 then [0xE0 + cp / 4096, 0x80 + cp / 64 % 64, 0x80 + cp % 64]
    else [0xF0 + cp / 262144, 0x80 + cp / 4096 % 64, 0x80 + cp / 64 % 64, 0x80 + cp % 64]
  }

  /**
   * The length of a character's encoding follows its scalar range (section 3
   * of RFC 3629), and every octet after the first is a continuation octet.
   */
  lemma EncodeCharShape(c: char)
    ensures var r := EncodeChar(c);
      && |r| == (if c as int < 0x80 then 1 else if c as int < 0x800 then 2 else if c as int < 0x10000 then 3 else 4)
      && (forall i :: 1 <= i < |r| ==> IsTail(r[i]))
      && (|r| > 1 ==> !IsTail(r[0]))
  {
  }

  /** `String::into_bytes`: the encodings of the characters, in order. */
  function Encode(s: string): seq<byte>
  {
    if s == [] then [] else EncodeChar(s[0]) + Encode(s[1..])
  }

  /** The scalar values carried by two-, three- and four-octet sequences. */
  function Scalar2(b0: int, b1: int): int {
    (b0 - 0xC0) * 64 + (b1 - 0x80)
  }

  function Scalar3(b0: int, b1: int, b2: int): int {
    (b0 - 0xE0) * 4096 + (b1 - 0x80) * 64 + (b2 - 0x80)
  }

  function Scalar4(b0: int, b1: int, b2: int, b3: int): int {
    (b0 - 0xF0) * 262144 + (b1 - 0x80) * 4096 + (b2 - 0x80) * 64 + (b3 - 0x80)
  }

  /**
   * The first character of `b` and the number of octets it takes, or None when
   * `b` does not start with a well-formed sequence (section 4 of RFC 3629:
   * no overlong forms, no surrogates, nothing above U+10FFFF).
   */
  function DecodeFirst(b: seq<byte>): (r: Option<(char, nat)>)
    requires |b| > 0
    ensures r.Some? ==> 1 <= r.value.1 <= |b| && r.value.1 <= 4
  {
    var b0: int := b[0];
    if b0 < 0x80 then
      Some((b0 as char, 1))
    else if 0xC2 <= b0 < 0xE0 then
      if |b| >= 2 && IsTail(b[1]) then Some((Scalar2(b0, b[1]) as char, 2)) else None
    else if 0xE0 <= b0 < 0xF0 then
      if |b| >= 3 && IsTail(b[1]) && IsTail(b[2]) then
        var cp := Scalar3(b0, b[1], b[2]);
        if cp < 0x800 || 0xD800 <= cp < 0xE000 then None else Some((cp as char, 3))
      else None
    else if 0xF0 <= b0 < 0xF5 then
      if |b| >= 4 && IsTail(b[1]) && IsTail(b[2]) && IsTail(b[3]) then
        var cp := Scalar4(b0, b[1], b[2], b[3]);
        if cp < 0x10000 || cp > 0x10FFFF then None else Some((cp as char, 4))
      else None
    else
      None
  }

  /** `String::from_utf8`: the decoded string, or None for ill-formed input. */
  function Decode(b: seq<byte>): Option<string>
    decreases |b|
  {
    if b == [] then Some([])
    else match DecodeFirst(b)
      case None => None
      case Some((c, n)) =>
        match Decode(b[n..])
        case None => None
        case Some(s) => Some([c] + s)
  }

  /** Euclidean division by 64, 4096 and 262144 on a known quotient and remainder. */
  lemma Div64(x: int, q: int, r: int)
    requires x == q * 64 + r && 0 <= r < 64
    ensures x / 64 == q && x % 64 == r
  {
  }

  lemma Div4096(x: int, q: int, r: int)
    requires x == q * 4096 + r && 0 <= r < 4096
    ensures x / 4096 == q
  {
  }

  lemma Div262144(x: int, q: int, r: int)
    requires x == q * 262144 + r && 0 <= r < 262144
    ensures x / 262144 == q
  {
  }

  lemma Split2(cp: int)
    requires 0x80 <= cp < 0x800
    ensures 0xC2 <= 0xC0 + cp / 64 < 0xE0 && 0 <= cp % 64 < 64
    ensures Scalar2(0xC0 + cp / 64, 0x80 + cp % 64) == cp
  {
    Div64(cp, cp / 64, cp % 64);
  }

  lemma Split3(cp: int)
    requires 0x800 <= cp < 0x10000
    ensures 0xE0 <= 0xE0 + cp / 4096 < 0xF0 && 0 <= cp / 64 % 64 < 64 && 0 <= cp % 64 < 64
    ensures Scalar3(0xE0 + cp / 4096, 0x80 + cp / 64 % 64, 0x80 + cp % 64) == cp
  {
    var d, y := cp % 64, cp / 64;
    var c, z := y % 64, y / 64;
    Div64(cp, y, d);
    Div64(y, z, c);
    Div4096(cp, z, c * 64 + d);
  }

  lemma Split4(cp: int)
    requires 0x10000 <= cp < 0x110000
    ensures 0xF0 <= 0xF0 + cp / 262144 < 0xF5 && 0 <= cp / 4096 % 64 < 64
    ensures 0 <= cp / 64 % 64 < 64 && 0 <= cp % 64 < 64
    ensures Scalar4(0xF0 + cp / 262144, 0x80 + cp / 4096 % 64, 0x80 + cp / 64 % 64, 0x80 + cp % 64) == cp
  {
    var d, y := cp % 64, cp / 64;
    var c, z := y % 64, y / 64;
    var b, a := z % 64, z / 64;
    Div64(cp, y, d);
    Div64(y, z, c);
    Div64(z, a, b);
    Div4096(cp, z, c * 64 + d);
    Div262144(cp, a, b * 4096 + c * 64 + d);
  }

  lemma Join2(b0: int, b1: int)
    requires 0xC0 <= b0 < 0xE0 && 0x80 <= b1 < 0xC0
    ensures Scalar2(b0, b1) / 64 == b0 - 0xC0 && Scalar2(b0, b1) % 64 == b1 - 0x80
  {
    Div64(Scalar2(b0, b1), b0 - 0xC0, b1 - 0x80);
  }

  lemma Join3(b0: int, b1: int, b2: int)
    requires 0xE0 <= b0 < 0xF0 && 0x80 <= b1 < 0xC0 && 0x80 <= b2 < 0xC0
    ensures var cp := Scalar3(b0, b1, b2);
      cp / 4096 == b0 - 0xE0 && cp / 64 % 64 == b1 - 0x80 && cp % 64 == b2 - 0x80
  {
    var cp := Scalar3(b0, b1, b2);
    var z := b0 - 0xE0;
    var y := z * 64 + (b1 - 0x80);
    Div64(cp, y, b2 - 0x80);
    Div64(y, z, b1 - 0x80);
    Div4096(cp, z, (b1 - 0x80) * 64 + (b2 - 0x80));
  }

  lemma Join4(b0: int, b1: int, b2: int, b3: int)
    requires 0xF0 <= b0 < 0xF8 && 0x80 <= b1 < 0xC0 && 0x80 <= b2 < 0xC0 && 0x80 <= b3 < 0xC0
    ensures var cp := Scalar4(b0, b1, b2, b3);
      cp / 262144 == b0 - 0xF0 && cp / 4096 % 64 == b1 - 0x80 && cp / 64 % 64 == b2 - 0x80 && cp % 64 == b3 - 0x80
  {
    var cp := Scalar4(b0, b1, b2, b3);
    var a := b0 - 0xF0;
    var z := a * 64 + (b1 - 0x80);
    var y := z * 64 + (b2 - 0x80);
    Div64(cp, y, b3 - 0x80);
    Div64(y, z, b2 - 0x80);
    Div64(z, a, b1 - 0x80);
    Div4096(cp, z, (b2 - 0x80) * 64 + (b3 - 0x80));
    Div262144(cp, a, (b1 - 0x80) * 4096 + (b2 - 0x80) * 64 + (b3 - 0x80));
  }

  /** Decoding the front of an encoded character gives the character back. */
  lemma DecodeFirstOfEncodeChar(c: char, rest: seq<byte>)
    ensures DecodeFirst(EncodeChar(c) + rest) == Some((c, |EncodeChar(c)|))
  {
    var cp := c as int;
    if 0x80 <= cp < 0x800 {
      Split2(cp);
    } else if 0x800 <= cp < 0x10000 {
      Split3(cp);
    } else if 0x10000 <= cp {
      Split4(cp);
    }
  }

  /** Whatever DecodeFirst accepts is exactly the encoding of what it returns. */
  lemma EncodeCharOfDecodeFirst(b: seq<byte>)
    requires |b| > 0 && DecodeFirst(b).Some?
    ensures EncodeChar(DecodeFirst(b).value.0) == b[..DecodeFirst(b).value.1]
  {
    var n := DecodeFirst(b).value.1;
    if n == 2 {
      Join2(b[0], b[1]);
    } else if n == 3 {
      Join3(b[0], b[1], b[2]);
    } else if n == 4 {
      Join4(b[0], b[1], b[2], b[3]);
    }
  }

  /** Every string survives a trip through its bytes. */
  lemma {:induction false} DecodeEncode(s: string)
    ensures Decode(Encode(s)) == Some(s)
  {
    if s != [] {
      var e := EncodeChar(s[0]);
      assert Encode(s) == e + Encode(s[1..]);
      DecodeFirstOfEncodeChar(s[0], Encode(s[1..]));
      assert (e + Encode(s[1..]))[|e|..] == Encode(s[1..]);
      DecodeEncode(s[1..]);
      assert [s[0]] + s[1..] == s;
    }
  }

  /** One step of Decode on non-empty input that decodes: the first character's octets come first. */
  lemma DecodeStep(b: seq<byte>, s: string) returns (n: nat)
    requires b != [] && Decode(b) == Some(s)
    ensures 1 <= n <= |b| && s != []
    ensures EncodeChar(s[0]) == b[..n] && Decode(b[n..]) == Some(s[1..])
  {
    n := DecodeFirst(b).value.1;
    EncodeCharOfDecodeFirst(b);
  }

  /** Bytes that decode are exactly the encoding of what they decode to. */
  lemma {:induction false} EncodeDecode(b: seq<byte>, s: string)
    requires Decode(b) == Some(s)
    ensures Encode(s) == b
    decreases |b|
  {
    if b != [] {
      var n := DecodeStep(b, s);
      EncodeDecode(b[n..], s[1..]);
      calc {
        Encode(s);
        EncodeChar(s[0]) + Encode(s[1..]);
        b[..n] + b[n..];
        b;
      }
    } else {
      assert s == [];
    }
  }

  /** Encoding distributes over concatenation. */
  lemma {:induction false} EncodeAppend(a: string, b: string)
    ensures Encode(a + b) == Encode(a) + Encode(b)
  {
    if a != [] {
      assert (a + b)[0] == a[0] && (a + b)[1..] == a[1..] + b;
      EncodeAppend(a[1..], b);
      calc {
        Encode(a + b);
        EncodeChar(a[0]) + Encode(a[1..] + b);
        EncodeChar(a[0]) + (Encode(a[1..]) + Encode(b));
        (EncodeChar(a[0]) + Encode(a[1..])) + Encode(b);
      }
    } else {
      assert a + b == b;
    }
  }

  /** A string of ASCII characters encodes to its character codes. */
  predicate IsAscii(s: string) {
    forall i :: 0 <= i < |s| ==> s[i] as int < 0x80
  }

  lemma {:induction false} EncodeAscii(s: string)
    requires IsAscii(s)
    ensures |Encode(s)| == |s|
    ensures forall i :: 0 <= i < |s| ==> Encode(s)[i] == s[i] as int
  {
    if s != [] {
      EncodeAscii(s[1..]);
      assert Encode(s) == [s[0] as int] + Encode(s[1..]);
    }
  }

  /** Each character takes at least one octet. */
  lemma {:induction false} EncodeLength(s: string)
    ensures |Encode(s)| >= |s|
    ensures |Encode(s)| == |s| <==> IsAscii(s)
  {
    if s != [] {
      EncodeLength(s[1..]);
      assert IsAscii(s) <==> s[0] as int < 0x80 && IsAscii(s[1..]);
    }
  }
}
