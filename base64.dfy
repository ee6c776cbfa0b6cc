/**
 * The base 64 encoding of section 4 of RFC 4648 (standard alphabet, with
 * padding), as produced by the base64 crate's `BASE64_STANDARD` engine, and
 * the crate's streaming `EncoderWriter`.
 */
module Base64 {
  import opened Wrappers
  import Utf8

  type byte = Utf8.byte

  type sextet = v: int | 0 <= v < 64

  /** Table 1 of RFC 4648: the symbol for a six-bit value, as an ASCII octet. */
  function Symbol(v: sextet): (c: byte)
    ensures c != Pad
  {
    if v < 26 then 'A' as int + v
    else if v < 52 then 'a' as int + (v - 26)
    else if v < 62 then '0' as int + (v - 52)
    else if v == 62 then '+' as int
    else '/' as int
  }

  /** The pad octet `=`. */
  const Pad: byte := '=' as int

  /** The value of an alphabet symbol; None for any other octet (Pad included). */
  function SymbolValue(c: byte): (v: Option<sextet>)
    ensures v.Some? ==> Symbol(v.value) == c
  {
    if 'A' as int <= c <= 'Z' as int then Some(c - 'A' as int)
    else if 'a' as int <= c <= 'z' as int then Some(c - 'a' as int + 26)
    else if '0' as int <= c <= '9' as int then Some(c - '0' as int + 52)
    else if c == '+' as int then Some(62)
    else if c == '/' as int then Some(63)
    else None
  }

  lemma SymbolValueOfSymbol(v: sextet)
    ensures SymbolValue(Symbol(v)) == Some(v)
  {
  }

  /** Three octets, 24 bits, as four symbols. */
  function EncodeGroup(b0: byte, b1: byte, b2: byte): seq<byte>
  {
    [Symbol(b0 / 4), Symbol(b0 % 4 * 16 + b1 / 16), Symbol(b1 % 16 * 4 + b2 / 64), Symbol(b2 % 64)]
  }

  /**
   * The encoding of `data`: a symbol quadruple per three octets, the final
   * one or two octets padded with `=` to a full quadruple.
   */
  function Encode(data: seq<byte>): seq<byte>
    decreases |data|
  {
    if |data| >= 3 then
      EncodeGroup(data[0], data[1], data[2]) + Encode(data[3..])
    else if |data| == 2 then
      [Symbol(data[0] / 4), Symbol(data[0] % 4 * 16 + data[1] / 16), Symbol(data[1] % 16 * 4), Pad]
    else if |data| == 1 then
      [Symbol(data[0] / 4), Symbol(data[0] % 4 * 16), Pad, Pad]
    else
      []
  }

  /**
   * The inverse of Encode: quadruples of symbols back to octets, with padding
   * allowed only in the last quadruple.
   */
  function Decode(text: seq<byte>): Option<seq<byte>>
    decreases |text|
  {
    if text == [] then Some([])
    else if |text| < 4 then None
    else
      var s0, s1 := SymbolValue(text[0]), SymbolValue(text[1]);
      if s0.None? || s1.None? then None
      else
        var b0: byte := s0.value * 4 + s1.value / 16;
        if |text| == 4 && text[2] == Pad && text[3] == Pad then Some([b0])
        else
          var s2 := SymbolValue(text[2]);
          if s2.None? then None
          else
            var b1: byte := s1.value % 16 * 16 + s2.value / 4;
            if |text| == 4 && text[3] == Pad then Some([b0, b1])
            else
              var s3 := SymbolValue(text[3]);
              if s3.None? then None
              else
                var b2: byte := s2.value % 4 * 64 + s3.value;
                match Decode(text[4..])
                case None => None
                case Some(rest) => Some([b0, b1, b2] + rest)
  }

  /** The bit arithmetic of one group: the symbols carry the octets back. */
  lemma GroupArithmetic(b0: byte, b1: byte, b2: byte)
    ensures (b0 / 4) * 4 + (b0 % 4 * 16 + b1 / 16) / 16 == b0
    ensures (b0 % 4 * 16 + b1 / 16) % 16 * 16 + (b1 % 16 * 4 + b2 / 64) / 4 == b1
    ensures (b1 % 16 * 4 + b2 / 64) % 4 * 64 + b2 % 64 == b2
  {
  }

  /** A final pair of octets comes back from its padded quadruple. */
  lemma DecodeEncodePair(b0: byte, b1: byte)
    ensures Decode(Encode([b0, b1])) == Some([b0, b1])
  {
    GroupArithmetic(b0, b1, 0);
    SymbolValueOfSymbol(b0 / 4);
    SymbolValueOfSymbol(b0 % 4 * 16 + b1 / 16);
    SymbolValueOfSymbol(b1 % 16 * 4);
    assert Encode([b0, b1]) == [Symbol(b0 / 4), Symbol(b0 % 4 * 16 + b1 / 16), Symbol(b1 % 16 * 4), Pad];
  }

  /** A final single octet comes back from its padded quadruple. */
  lemma DecodeEncodeSingle(b0: byte)
    ensures Decode(Encode([b0])) == Some([b0])
  {
    GroupArithmetic(b0, 0, 0);
    SymbolValueOfSymbol(b0 / 4);
    SymbolValueOfSymbol(b0 % 4 * 16);
    assert Encode([b0]) == [Symbol(b0 / 4), Symbol(b0 % 4 * 16), Pad, Pad];
  }

  /** A full group comes back, followed by whatever the rest decodes to. */
  lemma DecodeGroup(b0: byte, b1: byte, b2: byte, tail: seq<byte>)
    ensures Decode(EncodeGroup(b0, b1, b2) + tail) ==
      match Decode(tail) case None => None case Some(rest) => Some([b0, b1, b2] + rest)
  {
    var v0, v1, v2, v3 := b0 / 4, b0 % 4 * 16 + b1 / 16, b1 % 16 * 4 + b2 / 64, b2 % 64;
    GroupArithmetic(b0, b1, b2);
    var octets := [v0 * 4 + v1 / 16, v1 % 16 * 16 + v2 / 4, v2 % 4 * 64 + v3];
    assert octets == [b0, b1, b2];
    assert EncodeGroup(b0, b1, b2) == [Symbol(v0), Symbol(v1), Symbol(v2), Symbol(v3)];
    DecodeQuad(v0, v1, v2, v3, tail);
  }

  /** Four symbols decode to the three octets their 24 bits hold. */
  lemma DecodeQuad(v0: sextet, v1: sextet, v2: sextet, v3: sextet, tail: seq<byte>)
    ensures var text := [Symbol(v0), Symbol(v1), Symbol(v2), Symbol(v3)] + tail;
      Decode(text) ==
        match Decode(tail)
        case None => None
        case Some(rest) => Some([v0 * 4 + v1 / 16, v1 % 16 * 16 + v2 / 4, v2 % 4 * 64 + v3] + rest)
  {
    var text := [Symbol(v0), Symbol(v1), Symbol(v2), Symbol(v3)] + tail;
    SymbolValueOfSymbol(v0);
    SymbolValueOfSymbol(v1);
    SymbolValueOfSymbol(v2);
    SymbolValueOfSymbol(v3);
    assert text[4..] == tail;
  }

  /** Decoding undoes encoding, for every octet string. */
  lemma {:induction false} DecodeEncode(data: seq<byte>)
    ensures Decode(Encode(data)) == Some(data)
    decreases |data|
  {
    if |data| >= 3 {
      DecodeGroup(data[0], data[1], data[2], Encode(data[3..]));
      DecodeEncode(data[3..]);
      assert data == [data[0], data[1], data[2]] + data[3..];
    } else if |data| == 2 {
      DecodeEncodePair(data[0], data[1]);
      assert data == [data[0], data[1]];
    } else if |data| == 1 {
      DecodeEncodeSingle(data[0]);
      assert data == [data[0]];
    }
  }

  /** Four symbols for every group of three octets or part of one. */
  lemma {:induction false} EncodeLength(data: seq<byte>)
    ensures |Encode(data)| == (|data| + 2) / 3 * 4
    decreases |data|
  {
    var n := |data|;
    if n >= 3 {
      EncodeLength(data[3..]);
      assert (n + 2) / 3 == (n - 3 + 2) / 3 + 1;
    } else {
      assert (n + 2) / 3 == if n == 0 then 0 else 1;
    }
  }

  /** Whole groups encode independently of what follows them. */
  lemma {:induction false} EncodeAppend(a: seq<byte>, b: seq<byte>)
    requires |a| % 3 == 0
    ensures Encode(a + b) == Encode(a) + Encode(b)
    decreases |a|
  {
    if a == [] {
      assert a + b == b;
    } else {
      var ab := a + b;
      assert ab[0] == a[0] && ab[1] == a[1] && ab[2] == a[2];
      assert ab[3..] == a[3..] + b;
      EncodeAppend(a[3..], b);
    }
  }

  /** Fewer than three octets wait; everything before them has been encoded. */
  ghost predicate Buffered(pending: seq<byte>, written: seq<byte>, encoded: seq<byte>) {
    |pending| < 3 && |encoded| % 3 == 0 && written == encoded + pending
  }

  /** The buffer holds its initial contents and the encoding of whole groups. */
  ghost predicate Flushed(delegate: seq<byte>, initial: seq<byte>, encoded: seq<byte>) {
    delegate == initial + Encode(encoded)
  }

  /** The writer's invariant on plain values. */
  ghost predicate WriterState(delegate: seq<byte>, pending: seq<byte>, initial: seq<byte>,
                              written: seq<byte>, encoded: seq<byte>)
  {
    Buffered(pending, written, encoded) && Flushed(delegate, initial, encoded)
  }

  /** The octets a write leaves pending: the input past its last whole group. */
  function Leftover(input: seq<byte>): (rest: seq<byte>)
    ensures |rest| < 3
  {
    input[|input| / 3 * 3..]
  }

  /** Cutting the input after its last whole group. */
  lemma Cut(input: seq<byte>)
    ensures input[..|input| / 3 * 3] + Leftover(input) == input
    ensures |input[..|input| / 3 * 3]| % 3 == 0
  {
  }

  /** Held-back octets followed by new input, regrouped at a group boundary. */
  lemma Regroup(written: seq<byte>, encoded: seq<byte>, pending: seq<byte>, data: seq<byte>,
                group: seq<byte>, rest: seq<byte>)
    requires written == encoded + pending && pending + data == group + rest
    ensures written + data == (encoded + group) + rest
  {
    calc {
      written + data;
      (encoded + pending) + data;
      encoded + (pending + data);
      encoded + (group + rest);
      (encoded + group) + rest;
    }
  }

  lemma Associative(a: seq<byte>, b: seq<byte>, c: seq<byte>)
    ensures (a + b) + c == a + (b + c)
  {
  }

  lemma GroupCount(a: nat, b: nat)
    requires a % 3 == 0 && b % 3 == 0
    ensures (a + b) % 3 == 0
  {
  }

  /** The buffer after encoding one more run of whole groups. */
  lemma FlushStep(delegate: seq<byte>, initial: seq<byte>, encoded: seq<byte>, group: seq<byte>)
    requires Flushed(delegate, initial, encoded) && |encoded| % 3 == 0
    ensures Flushed(delegate + Encode(group), initial, encoded + group)
  {
    EncodeAppend(encoded, group);
    Associative(initial, Encode(encoded), Encode(group));
  }

  /** The held-back octets after one more write. */
  lemma BufferStep(pending: seq<byte>, written: seq<byte>, encoded: seq<byte>, data: seq<byte>,
                   group: seq<byte>, rest: seq<byte>)
    requires Buffered(pending, written, encoded)
    requires pending + data == group + rest && |group| % 3 == 0 && |rest| < 3
    ensures Buffered(rest, written + data, encoded + group)
  {
    Regroup(written, encoded, pending, data, group, rest);
    GroupCount(|encoded|, |group|);
  }

  /** Writing keeps the invariant: whole groups of pending + data are encoded, the rest waits. */
  lemma WriteStep(delegate: seq<byte>, pending: seq<byte>, initial: seq<byte>,
                  written: seq<byte>, encoded: seq<byte>, data: seq<byte>,
                  group: seq<byte>, rest: seq<byte>)
    requires WriterState(delegate, pending, initial, written, encoded)
    requires pending + data == group + rest && |group| % 3 == 0 && |rest| < 3
    ensures WriterState(delegate + Encode(group), rest, initial, written + data, encoded + group)
  {
    FlushStep(delegate, initial, encoded, group);
    BufferStep(pending, written, encoded, data, group, rest);
  }

  /** Finishing encodes the pending octets with padding: the buffer then holds the whole input's encoding. */
  lemma FinishStep(delegate: seq<byte>, pending: seq<byte>, initial: seq<byte>,
                   written: seq<byte>, encoded: seq<byte>)
    requires WriterState(delegate, pending, initial, written, encoded)
    ensures delegate + Encode(pending) == initial + Encode(written)
  {
    EncodeAppend(encoded, pending);
  }

  /**
   * The crate's `EncoderWriter` over a byte buffer. Input is held back until a
   * whole three-octet group is available; `Finish`, which runs when the writer
   * is dropped, encodes what is left with padding.
   */
  class EncoderWriter {
    /** The buffer the writer appends symbols to. */
    var delegate: seq<byte>
    /** Input octets not yet encoded: fewer than a group. */
    var pending: seq<byte>
    /** The buffer's contents when the writer was created. */
    ghost var initial: seq<byte>
    /** Every octet written so far. */
    ghost var written: seq<byte>
    /** The octets already encoded into the buffer: whole groups. */
    ghost var encoded: seq<byte>

    ghost predicate Valid()
      reads this
    {
      WriterState(delegate, pending, initial, written, encoded)
    }

    constructor (buffer: seq<byte>)
      ensures Valid()
      ensures initial == buffer && written == [] && delegate == buffer
    {
      delegate := buffer;
      pending := [];
      initial := buffer;
      written := [];
      encoded := [];
    }

    /** `write_all`: appends `data` to the input stream. */
    method Write(data: seq<byte>)
      requires Valid()
      modifies this
      ensures Valid()
      ensures initial == old(initial) && written == old(written) + data
    {
      var input := pending + data;
      var group, rest := input[..|input| / 3 * 3], Leftover(input);
      Cut(input);
      WriteStep(delegate, pending, initial, written, encoded, data, group, rest);
      delegate, pending := delegate + Encode(group), rest;
      written, encoded := written + data, encoded + group;
    }

    /** Flushes the held-back octets and gives the buffer back. */
    method Finish() returns (buffer: seq<byte>)
      requires Valid()
      modifies this
      ensures initial == old(initial) && written == old(written)
      ensures buffer == initial + Encode(written)
    {
      FinishStep(delegate, pending, initial, written, encoded);
      delegate := delegate + Encode(pending);
      pending := [];
      buffer := delegate;
    }
  }
}
