/** The byte cursor the codec reads from and writes to, reduced to what the
    codec observes: fixed-width integers in a selectable byte order and raw
    byte spans, over an immutable byte sequence. A read returns the decoded
    value together with the bytes that remain after it.

    The cursor library itself is not part of this model. Its behaviour on a
    short read is fixed here as an explicit assumption: a read that asks for
    more bytes than remain yields nothing and leaves the remaining bytes as
    they were (a fixed-width read reports `Truncated`; a raw span read
    reports nothing at all, since the codec never checks it). */
module Cursor {
  import opened Ints
  import opened Results

  type Bytes = seq<uint8>

  /** The byte order chosen once for a whole stream (nbt.go BigEndian/LittleEndian). */
  datatype ByteOrder = BigEndian | LittleEndian

  /** The n least significant base-256 digits of v, least significant first. */
  function LittleEndianDigits(v: nat, n: nat): (r: Bytes)
    ensures |r| == n
  {
    if n == 0 then [] else [v % 0x100] + LittleEndianDigits(v / 0x100, n - 1)
  }

  /** The number whose base-256 digits, least significant first, are b. */
  function LittleEndianValue(b: Bytes): (r: nat)
    ensures r < Pow256(|b|)
  {
    if b == [] then 0 else b[0] + 0x100 * LittleEndianValue(b[1..])
  }

  function Reverse(b: Bytes): (r: Bytes)
    ensures |r| == |b|
  {
    if b == [] then [] else Reverse(b[1..]) + [b[0]]
  }

  /** Position i of the reversal holds the i-th byte from the end. */
  lemma {:induction false} ReverseIndex(b: Bytes)
    ensures forall i | 0 <= i < |b| :: Reverse(b)[i] == b[|b| - 1 - i]
  {
    if b != [] {
      ReverseIndex(b[1..]);
    }
  }

  /** The n-byte representation of an unsigned value in the given order. */
  function Encode(o: ByteOrder, n: nat, v: nat): (r: Bytes)
    ensures |r| == n
  {
    var le := LittleEndianDigits(v, n);
    if o == LittleEndian then le else Reverse(le)
  }

  /** The unsigned value an n-byte word represents in the given order. */
  function Decode(o: ByteOrder, b: Bytes): (r: nat)
    ensures r < Pow256(|b|)
  {
    LittleEndianValue(if o == LittleEndian then b else Reverse(b))
  }

  lemma ReverseInvolutive(b: Bytes)
    ensures Reverse(Reverse(b)) == b
  {
    ReverseIndex(b);
    ReverseIndex(Reverse(b));
    assert forall i | 0 <= i < |b| :: Reverse(Reverse(b))[i] == b[i];
  }

  lemma {:induction false} DigitsThenValue(v: nat, n: nat)
    requires v < Pow256(n)
    ensures LittleEndianValue(LittleEndianDigits(v, n)) == v
  {
    if n > 0 {
      DigitsThenValue(v / 0x100, n - 1);
      assert LittleEndianDigits(v, n)[1..] == LittleEndianDigits(v / 0x100, n - 1);
    }
  }

  lemma {:induction false} ValueThenDigits(b: Bytes)
    ensures LittleEndianDigits(LittleEndianValue(b), |b|) == b
  {
    if b != [] {
      ValueThenDigits(b[1..]);
      var v := LittleEndianValue(b);
      assert v % 0x100 == b[0];
      assert v / 0x100 == LittleEndianValue(b[1..]);
    }
  }

  /** Decoding what was encoded gives back every value that fits the width. */
  lemma DecodeEncode(o: ByteOrder, n: nat, v: nat)
    requires v < Pow256(n)
    ensures Decode(o, Encode(o, n, v)) == v
  {
    DigitsThenValue(v, n);
    if o == BigEndian {
      ReverseInvolutive(LittleEndianDigits(v, n));
    }
  }

  /** Every n-byte word is the encoding of the value it decodes to. */
  lemma EncodeDecode(o: ByteOrder, b: Bytes)
    ensures Encode(o, |b|, Decode(o, b)) == b
  {
    if o == LittleEndian {
      ValueThenDigits(b);
    } else {
      ValueThenDigits(Reverse(b));
      ReverseInvolutive(b);
    }
  }

  /** The two byte orders emit the same digits in opposite directions:
      big-endian puts the most significant byte first. */
  lemma ByteOrdersMirror(n: nat, v: nat)
    ensures Encode(BigEndian, n, v) == Reverse(Encode(LittleEndian, n, v))
    ensures n > 0 ==> Encode(LittleEndian, n, v)[0] == v % 0x100
    ensures n > 0 ==> Encode(BigEndian, n, v)[n - 1] == v % 0x100
  {
    ReverseIndex(LittleEndianDigits(v, n));
  }

  /** A one-byte read (`Byte()`): fails on an exhausted cursor. */
  function ReadByte(s: Bytes): (r: Result<(uint8, Bytes)>)
    ensures r.Ok? <==> |s| >= 1
    ensures r.Ok? ==> s == [r.value.0] + r.value.1
  {
    if |s| == 0 then Err(Truncated) else Ok((s[0], s[1..]))
  }

  /** An n-byte unsigned read: fails when fewer than n bytes remain. */
  function ReadUnsigned(o: ByteOrder, n: nat, s: Bytes): (r: Result<(nat, Bytes)>)
    ensures r.Ok? <==> |s| >= n
    ensures r.Ok? ==> r.value.0 < Pow256(n) && r.value.1 == s[n..]
  {
    if |s| < n then Err(Truncated)
    else Ok((Decode(o, s[..n]), s[n..]))
  }

  /** What an unsigned read consumed is exactly the encoding of the value it
      returned. */
  lemma ReadUnsignedConsumesEncoding(o: ByteOrder, n: nat, s: Bytes)
    requires |s| >= n
    ensures ReadUnsigned(o, n, s).Ok?
    ensures s == Encode(o, n, ReadUnsigned(o, n, s).value.0) + s[n..]
  {
    EncodeDecode(o, s[..n]);
    assert s == s[..n] + s[n..];
  }

  /** A signed read of one machine width (SByte, SShort, Int, Long). */
  function ReadSigned(o: ByteOrder, w: Width, s: Bytes): (r: Result<(int, Bytes)>)
    ensures r.Ok? <==> |s| >= w.Size()
    ensures r.Ok? ==> -w.Half() <= r.value.0 < w.Half() && r.value.1 == s[w.Size()..]
  {
    var (u, rest) :- ReadUnsigned(o, w.Size(), s);
    Ok((ToSigned(u, w), rest))
  }

  /** A signed write of one machine width: the two's-complement bits of x. */
  function WriteSigned(o: ByteOrder, w: Width, x: int): (r: Bytes)
    ensures |r| == w.Size()
  {
    Encode(o, w.Size(), ToUnsigned(x, w))
  }

  lemma UnsignedRoundTrip(o: ByteOrder, n: nat, v: nat, rest: Bytes)
    requires v < Pow256(n)
    ensures ReadUnsigned(o, n, Encode(o, n, v) + rest) == Ok((v, rest))
  {
    var s := Encode(o, n, v) + rest;
    assert s[..n] == Encode(o, n, v);
    assert s[n..] == rest;
    DecodeEncode(o, n, v);
  }

  /** Writing then reading a value of a signed width under one byte order
      returns it and consumes exactly the width's bytes. */
  lemma SignedRoundTrip(o: ByteOrder, w: Width, x: int, rest: Bytes)
    requires -w.Half() <= x < w.Half()
    ensures ReadSigned(o, w, WriteSigned(o, w, x) + rest) == Ok((x, rest))
  {
    ModulusIsPow256(w);
    UnsignedRoundTrip(o, w.Size(), ToUnsigned(x, w), rest);
    SignedUnsignedInverse(x, w);
  }

  /** Raw span read `Get(n)`: n bytes and what follows them. A negative n
      makes Go's slice expression panic; when fewer than n bytes remain the
      read yields no bytes and consumes none (the assumption stated above). */
  function Get(n: int, s: Bytes): (r: Result<(Bytes, Bytes)>)
    ensures r.Err? <==> n < 0
    ensures r.Err? ==> r.error == Panic
    ensures r.Ok? ==> r.value.0 + r.value.1 == s
    ensures r.Ok? && n <= |s| ==> |r.value.0| == n
    ensures r.Ok? && n > |s| ==> r.value.0 == []
  {
    if n < 0 then Err(Panic)
    else if n > |s| then Ok(([], s))
    else Ok((s[..n], s[n..]))
  }

  /** A value below 256 in big-endian order: leading zero bytes, then the
      value itself. */
  lemma SmallBigEndian(v: uint8)
    ensures Encode(BigEndian, 2, v) == [0, v]
    ensures Encode(BigEndian, 4, v) == [0, 0, 0, v]
    ensures Decode(BigEndian, [0, v]) == v
  {
    assert LittleEndianDigits(0, 1) == [0];
    assert LittleEndianDigits(0, 2) == [0, 0];
    assert LittleEndianDigits(0, 3) == [0, 0, 0];
    assert LittleEndianDigits(v, 2) == [v, 0];
    assert LittleEndianDigits(v, 4) == [v, 0, 0, 0];
    ReverseIndex([v, 0]);
    ReverseIndex([v, 0, 0, 0]);
    Pow256Values();
    DecodeEncode(BigEndian, 2, v);
  }
}
