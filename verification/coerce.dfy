/** The coercion matrix of the tag kinds (tag.go `ToX` methods), restricted
    to what does not depend on floating point or on `strconv`: the integer
    casts, `ToBool`, `ToIntArray` and `ToByteArray`. */
module Coercions {
  import opened Ints
  import opened Results
  import opened Cursor
  import opened Tags

  /** The integer `ToX` methods, by the Go type they return. `int` and
      `uint` are taken to be 64 bits wide, `rune` is `int32`, `byte` is
      `uint8`. */
  datatype Target =
    | ToByte | ToRune | ToInt | ToUInt
    | ToUInt8 | ToUInt16 | ToUInt32 | ToUInt64
    | ToInt8 | ToInt16 | ToInt32 | ToInt64
  {
    function Width(): Width {
      match this
      case ToByte => W8
      case ToRune => W32
      case ToInt => W64
      case ToUInt => W64
      case ToUInt8 => W8
      case ToUInt16 => W16
      case ToUInt32 => W32
      case ToUInt64 => W64
      case ToInt8 => W8
      case ToInt16 => W16
      case ToInt32 => W32
      case ToInt64 => W64
    }

    predicate Signed() {
      this in {ToRune, ToInt, ToInt8, ToInt16, ToInt32, ToInt64}
    }

    /** The values the Go result type can hold. */
    predicate Holds(x: int) {
      if Signed() then -Width().Half() <= x < Width().Half() else 0 <= x < Width().Modulus()
    }
  }

  /** The outcome of a coercion. Two outcomes stand for computations this
      model leaves to Go's libraries: parsing a String's text with
      `strconv`, and converting a Float's or Double's bits to an integer. */
  datatype Coerced<+T> =
    | Done(value: T)
    | Failed(error: Error)
    | ParseText(text: Bytes)
    | ConvertFloat(bits: nat, double: bool)

  /** Go's conversion `T(x)` of an integer to the target's type. */
  function Cast(x: int, t: Target): (r: int)
    ensures t.Holds(r)
  {
    if t.Signed() then ToSigned(x, t.Width()) else ToUnsigned(x, t.Width())
  }

  /** The integer a tag of an integer kind holds, widened to `int`. */
  function IntegerOf(v: Value): int
    requires v.Byte? || v.Short? || v.Int? || v.Long?
  {
    match v
    case Byte(x) => x
    case Short(x) => x
    case Int(x) => x
    case Long(x) => x
  }

  /** The width of the Go field an integer kind stores its value in. */
  function IntegerWidth(v: Value): Width
    requires v.Byte? || v.Short? || v.Int? || v.Long?
  {
    match v
    case Byte(_) => W8
    case Short(_) => W16
    case Int(_) => W32
    case Long(_) => W64
  }

  /** An integer `ToX` method of every kind: End gives zero, the integer
      kinds cast, ByteArray, List, Compound and IntArray refuse. */
  function ToInteger(v: Value, t: Target): (r: Coerced<int>)
    ensures r.Done? ==> t.Holds(r.value)
    ensures v.End? ==> r == Done(0)
    ensures r.Failed? <==> v.ByteArray? || v.List? || v.Compound? || v.IntArray?
    ensures r.Failed? ==> r.error == CannotCast
    ensures r.ParseText? <==> v.String?
    ensures r.ConvertFloat? <==> v.Float? || v.Double?
  {
    match v
    case End => Done(0)
    case Byte(x) => Done(Cast(x, t))
    case Short(x) => Done(Cast(x, t))
    case Int(x) => Done(Cast(x, t))
    case Long(x) => Done(Cast(x, t))
    case Float(bits) => ConvertFloat(bits, false)
    case Double(bits) => ConvertFloat(bits, true)
    case String(text) => ParseText(text)
    case _ => Failed(CannotCast)
  }

  /** Narrowing keeps exactly the low bits of the stored value: the result
      agrees with the stored value modulo 2^N. */
  lemma CoercionKeepsLowBits(v: Value, t: Target)
    requires v.Byte? || v.Short? || v.Int? || v.Long?
    ensures ToInteger(v, t).Done?
    ensures ToUnsigned(ToInteger(v, t).value, t.Width()) == ToUnsigned(IntegerOf(v), t.Width())
  {
    var x := IntegerOf(v);
    if t.Signed() {
      ToSignedKeepsBits(x, t.Width());
    }
  }

  /** Widening is exact: a signed target at least as wide as the stored
      value gives the value itself (sign extension), an unsigned one gives
      it unchanged when non-negative and offset by 2^N when negative. */
  lemma CoercionWidensExactly(v: Value, t: Target)
    requires v.Byte? || v.Short? || v.Int? || v.Long?
    requires IntegerWidth(v).Size() <= t.Width().Size()
    ensures t.Signed() ==> ToInteger(v, t) == Done(IntegerOf(v))
    ensures !t.Signed() && IntegerOf(v) >= 0 ==> ToInteger(v, t) == Done(IntegerOf(v))
    ensures !t.Signed() && IntegerOf(v) < 0 ==> ToInteger(v, t) == Done(IntegerOf(v) + t.Width().Modulus())
  {
    WideningPreservesValue(IntegerOf(v), IntegerWidth(v), t.Width());
  }

  /** Casting through any wider intermediate type gives the same result as
      casting directly. */
  lemma CastThroughWider(x: int, mid: Target, t: Target)
    requires t.Width().Size() <= mid.Width().Size()
    ensures Cast(Cast(x, mid), t) == Cast(x, t)
  {
    var y := Cast(x, mid);
    if mid.Signed() {
      ToSignedKeepsBits(x, mid.Width());
    }
    assert ToUnsigned(y, mid.Width()) == ToUnsigned(x, mid.Width());
    LowBitsAgree(y, x, mid.Width(), t.Width());
  }

  /** `ToBool`: End is false, the numeric kinds compare their value with
      zero, the sequence kinds test for a non-empty value. A float is zero
      when all of its bits except the sign are clear. A zero value is never
      true; `ToBoolIsNonZero` states exactly which values are. */
  function ToBool(v: Value): (r: bool)
    ensures IsZero(v) ==> !r
  {
    match v
    case End => false
    case Byte(x) => x != 0
    case Short(x) => x != 0
    case Int(x) => x != 0
    case Long(x) => x != 0
    case Float(bits) => bits % 0x8000_0000 != 0
    case Double(bits) => bits % 0x8000_0000_0000_0000 != 0
    case ByteArray(bytes) => |bytes| > 0
    case String(text) => |text| > 0
    case List(_, elems) => |elems| > 0
    case Compound(m) => |m| > 0
    case IntArray(xs) => |xs| > 0
  }

  /** `ToBool` is false exactly on the zero values `getTagByID` produces,
      on an empty list of any element kind, and on negative zero. */
  lemma ToBoolIsNonZero(v: Value)
    ensures !v.List? && !v.Float? && !v.Double? ==> (ToBool(v) <==> !IsZero(v))
    ensures v.List? ==> (ToBool(v) <==> v.elems != [])
    ensures v.Float? ==> (ToBool(v) <==> v.fbits != 0 && v.fbits != 0x8000_0000)
    ensures v.Double? ==> (ToBool(v) <==> v.dbits != 0 && v.dbits != 0x8000_0000_0000_0000)
  {
    if v.Compound? {
      assert |v.entries| == 0 <==> v.entries == map[] by {
        if |v.entries| == 0 {
          assert v.entries.Keys == {};
        }
      }
    }
  }

  /** On the integer kinds `ToBool` agrees with the integer coercions: it
      holds exactly when the value cast to any target at least as wide is
      non-zero. */
  lemma ToBoolAgreesWithInteger(v: Value, t: Target)
    requires v.Byte? || v.Short? || v.Int? || v.Long?
    requires IntegerWidth(v).Size() <= t.Width().Size()
    ensures ToBool(v) <==> ToInteger(v, t) != Done(0)
  {
    CoercionWidensExactly(v, t);
  }

  /** `ToIntArray`: End gives the empty array, Byte, Short and Int a
      one-element array, Long its high and low 32-bit halves, IntArray
      itself; the other kinds refuse. */
  function ToIntArray(v: Value): (r: Result<seq<int32>>)
    ensures r.Err? <==> v.Float? || v.Double? || v.ByteArray? || v.String? || v.List? || v.Compound?
    ensures r.Err? ==> r.error == CannotCast
    ensures v.Byte? || v.Short? || v.Int? ==> r == Ok([IntegerOf(v)])
    ensures v.Long? ==> r.Ok? && |r.value| == 2
    ensures v.End? ==> r == Ok([])
    ensures v.IntArray? ==> r == Ok(v.ints)
  {
    match v
    case End => Ok([])
    case Byte(x) => Ok([x])
    case Short(x) => Ok([x])
    case Int(x) => Ok([x])
    case Long(x) =>
      // x >> 32 is an arithmetic shift; on a non-negative divisor Dafny's
      // division rounds down as that shift does.
      var hi := x / 0x1_0000_0000;
      Ok([ToSigned(hi, W32), ToSigned(x, W32)])
    case IntArray(xs) => Ok(xs)
    case _ => Err(CannotCast)
  }

  /** The two halves of a Long recombine to it: the high half is the signed
      upper word and the low half holds the lower 32 bits. */
  lemma LongHalvesRecombine(x: int64)
    ensures ToIntArray(Long(x)).Ok?
    ensures ToIntArray(Long(x)).value[0] * 0x1_0000_0000
            + ToUnsigned(ToIntArray(Long(x)).value[1], W32) == x
  {
    var hi := x / 0x1_0000_0000;
    assert -0x8000_0000 <= hi < 0x8000_0000;
    ToSignedKeepsBits(x, W32);
    ToUnsignedIsRemainder(x, W32);
  }

  /** `ToByteArray`. The multi-byte integer and float kinds go through the
      cursor library's `WriteShort`, `WriteInt`, `WriteLong`, `WriteFloat`
      and `WriteDouble` helpers, whose byte order is the library's own and
      is a parameter here. */
  function ToByteArray(v: Value, helper: ByteOrder): (r: Result<Bytes>)
    ensures r.Err? <==> v.List? || v.Compound? || v.IntArray?
    ensures r.Err? ==> r.error == CannotCast
    ensures v.ByteArray? ==> r == Ok(v.bytes)
    ensures v.String? ==> r == Ok(v.text)
    ensures v.End? ==> r == Ok([])
    ensures v.Float? ==> r == Ok(Encode(helper, 4, v.fbits)) && |r.value| == 4
    ensures v.Double? ==> r == Ok(Encode(helper, 8, v.dbits)) && |r.value| == 8
  {
    match v
    case End => Ok([])
    case Byte(x) => Ok([ToUnsigned(x, W8)])
    case Short(x) => Ok(WriteSigned(helper, W16, x))
    case Int(x) => Ok(WriteSigned(helper, W32, x))
    case Long(x) => Ok(WriteSigned(helper, W64, x))
    case Float(bits) => Ok(Encode(helper, 4, bits))
    case Double(bits) => Ok(Encode(helper, 8, bits))
    case ByteArray(bytes) => Ok(bytes)
    case String(text) => Ok(text)
    case _ => Err(CannotCast)
  }

  /** The bytes of an integer kind are its two's-complement word: they are
      as many as the kind is wide, and reading them back signed in the
      helpers' order gives the value. */
  lemma ToByteArrayIsWord(v: Value, helper: ByteOrder)
    requires v.Byte? || v.Short? || v.Int? || v.Long?
    ensures ToByteArray(v, helper).Ok?
    ensures |ToByteArray(v, helper).value| == IntegerWidth(v).Size()
    ensures ReadSigned(helper, IntegerWidth(v), ToByteArray(v, helper).value) == Ok((IntegerOf(v), []))
  {
    var w := IntegerWidth(v);
    var x := IntegerOf(v);
    SignedRoundTrip(helper, w, x, []);
    assert WriteSigned(helper, w, x) + [] == WriteSigned(helper, w, x);
    if v.Byte? {
      Pow256Values();
      assert WriteSigned(helper, W8, x) == [ToUnsigned(x, W8)];
    }
  }
}
