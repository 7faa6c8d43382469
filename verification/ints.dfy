/** Go's fixed-width integers, modelled on unbounded `int`, and the
    two's-complement conversions Go performs between them. */
module Ints {

  type uint8 = x: int | 0 <= x < 0x100
  type uint16 = x: int | 0 <= x < 0x1_0000
  type uint32 = x: int | 0 <= x < 0x1_0000_0000
  type uint64 = x: int | 0 <= x < 0x1_0000_0000_0000_0000
  type int8 = x: int | -0x80 <= x < 0x80
  type int16 = x: int | -0x8000 <= x < 0x8000
  type int32 = x: int | -0x8000_0000 <= x < 0x8000_0000
  type int64 = x: int | -0x8000_0000_0000_0000 <= x < 0x8000_0000_0000_0000

  /** 256^n, the number of values an n-byte word can hold. */
  function Pow256(n: nat): (r: nat)
    ensures r >= 1
  {
    if n == 0 then 1 else 0x100 * Pow256(n - 1)
  }

  /** The values of 256^n at the four machine widths. */
  lemma Pow256Values()
    ensures Pow256(1) == 0x100
    ensures Pow256(2) == 0x1_0000
    ensures Pow256(4) == 0x1_0000_0000
    ensures Pow256(8) == 0x1_0000_0000_0000_0000
  {
    assert Pow256(3) == 0x100_0000;
    assert Pow256(6) == 0x1_0000_0000_0000;
  }

  lemma MulAtLeast(m: int, d: int)
    requires m > 0 && d >= 1
    ensures m * d >= m
  {
  }

  lemma MulDistributes(m: int, x: int, y: int)
    ensures m * (x + y) == m * x + m * y
    ensures m * x - m * y == m * (x - y)
  {
  }

  /** Euclidean division has a unique remainder. */
  lemma ModUnique(a: int, m: int, q: int, r: int)
    requires m > 0 && 0 <= r < m && a == m * q + r
    ensures a % m == r
  {
    var q' := a / m;
    var r' := a % m;
    assert a == m * q' + r';
    MulDistributes(m, q, q');
    assert m * (q - q') == r' - r;
    if q > q' {
      MulAtLeast(m, q - q');
    } else if q < q' {
      MulDistributes(m, q', q);
      MulAtLeast(m, q' - q);
    }
  }

  /** Adding a multiple of m does not change the remainder modulo m. */
  lemma ModAddMultiple(b: int, m: int, t: int)
    requires m > 0
    ensures (b + m * t) % m == b % m
  {
    assert b == m * (b / m) + b % m;
    MulDistributes(m, b / m, t);
    ModUnique(b + m * t, m, b / m + t, b % m);
  }

  /** Agreement modulo m*k implies agreement modulo m. */
  lemma ModOfMultiple(a: int, b: int, m: int, k: int)
    requires m > 0 && k > 0
    requires a % (m * k) == b % (m * k)
    ensures a % m == b % m
  {
    var n := m * k;
    var qa, qb := a / n, b / n;
    assert a == n * qa + a % n;
    assert b == n * qb + b % n;
    assert a == b + m * (k * (qa - qb));
    ModAddMultiple(b, m, k * (qa - qb));
  }

  /** The four machine widths Go's conversions work with. */
  datatype Width = W8 | W16 | W32 | W64 {

    /** Number of bytes of a word of this width. */
    function Size(): nat {
      match this
      case W8 => 1
      case W16 => 2
      case W32 => 4
      case W64 => 8
    }

    /** Number of distinct words of this width, 2^bits. */
    function Modulus(): (r: int) {
      match this
      case W8 => 0x100
      case W16 => 0x1_0000
      case W32 => 0x1_0000_0000
      case W64 => 0x1_0000_0000_0000_0000
    }

    /** Half the modulus: the first value that no longer fits the signed type. */
    function Half(): (r: int)
      ensures r > 0 && 2 * r == Modulus()
    {
      match this
      case W8 => 0x80
      case W16 => 0x8000
      case W32 => 0x8000_0000
      case W64 => 0x8000_0000_0000_0000
    }
  }

  /** 2^bits is 256 to the power of the byte size. */
  lemma ModulusIsPow256(w: Width)
    ensures w.Modulus() == Pow256(w.Size())
  {
    Pow256Values();
  }

  /** `uintN(x)` in Go: the low N bits of x read as an unsigned number. The
      modulus is spelled out per width to keep the division linear. */
  function ToUnsigned(x: int, w: Width): (r: nat)
    ensures r < w.Modulus()
    ensures 0 <= x < w.Modulus() ==> r == x
  {
    match w
    case W8 => x % 0x100
    case W16 => x % 0x1_0000
    case W32 => x % 0x1_0000_0000
    case W64 => x % 0x1_0000_0000_0000_0000
  }

  /** The unsigned conversion is the remainder modulo 2^N. */
  lemma ToUnsignedIsRemainder(x: int, w: Width)
    ensures ToUnsigned(x, w) == x % w.Modulus()
  {
  }

  /** `intN(x)` in Go: the low N bits of x read as a two's-complement number. */
  function ToSigned(x: int, w: Width): (r: int)
    ensures -w.Half() <= r < w.Half()
    ensures -w.Half() <= x < w.Half() ==> r == x
  {
    var u := ToUnsigned(x, w);
    if u < w.Half() then u else u - w.Modulus()
  }

  /** The unsigned conversion is the unique value in range that agrees with
      x modulo 2^N. */
  lemma ToUnsignedCongruent(x: int, w: Width)
    ensures (x - ToUnsigned(x, w)) % w.Modulus() == 0
  {
    var m := w.Modulus();
    ToUnsignedIsRemainder(x, w);
    assert x == m * (x / m) + x % m;
    assert x - ToUnsigned(x, w) == 0 + m * (x / m);
    ModAddMultiple(0, m, x / m);
  }

  /** The signed conversion keeps exactly the low N bits of x. */
  lemma ToSignedKeepsBits(x: int, w: Width)
    ensures ToUnsigned(ToSigned(x, w), w) == ToUnsigned(x, w)
  {
    var m := w.Modulus();
    var u := ToUnsigned(x, w);
    ToUnsignedIsRemainder(x, w);
    ToUnsignedIsRemainder(ToSigned(x, w), w);
    if u >= w.Half() {
      ModAddMultiple(u, m, -1);
    }
  }

  /** Sign extension: converting a signed N-bit value to any width at least
      as wide leaves it unchanged, and so does reading it back signed. */
  lemma WideningPreservesValue(x: int, from: Width, to: Width)
    requires -from.Half() <= x < from.Half()
    requires from.Size() <= to.Size()
    ensures ToSigned(x, to) == x
    ensures x >= 0 ==> ToUnsigned(x, to) == x
    ensures x < 0 ==> ToUnsigned(x, to) == x + to.Modulus()
  {
  }

  /** A narrower modulus divides a wider one. */
  lemma ModulusFactor(to: Width, mid: Width) returns (k: int)
    requires to.Size() <= mid.Size()
    ensures k > 0 && to.Modulus() * k == mid.Modulus()
  {
    k := mid.Modulus() / to.Modulus();
    match mid
    case W8 =>
    case W16 =>
    case W32 =>
    case W64 =>
  }

  /** Agreement in the low bits of a wide word implies agreement in the low
      bits of every narrower one. */
  lemma LowBitsAgree(x: int, y: int, mid: Width, to: Width)
    requires to.Size() <= mid.Size()
    requires ToUnsigned(x, mid) == ToUnsigned(y, mid)
    ensures ToUnsigned(x, to) == ToUnsigned(y, to)
  {
    ToUnsignedIsRemainder(x, mid);
    ToUnsignedIsRemainder(y, mid);
    ToUnsignedIsRemainder(x, to);
    ToUnsignedIsRemainder(y, to);
    var k := ModulusFactor(to, mid);
    ModOfMultiple(x, y, to.Modulus(), k);
  }

  /** Truncation: narrowing keeps exactly the low bits, whatever width the
      value passed through first. */
  lemma NarrowingKeepsLowBits(x: int, mid: Width, to: Width)
    requires to.Size() <= mid.Size()
    ensures ToUnsigned(ToSigned(x, mid), to) == ToUnsigned(x, to)
    ensures ToSigned(ToSigned(x, mid), to) == ToSigned(x, to)
  {
    ToSignedKeepsBits(x, mid);
    LowBitsAgree(ToSigned(x, mid), x, mid, to);
  }

  /** Signed and unsigned readings of the same bits are inverse to each other. */
  lemma SignedUnsignedInverse(x: int, w: Width)
    requires -w.Half() <= x < w.Half()
    ensures ToSigned(ToUnsigned(x, w), w) == x
  {
  }
}
