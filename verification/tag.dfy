/** The tag tree (tag.go): a closed sum of the twelve tag kinds, each with
    the name every Go tag carries, plus the id table and the dispatch from
    an id to a fresh zero-valued tag. */
module Tags {
  import opened Ints
  import opened Results
  import opened Cursor

  /** The kind ids, consecutive from End = 0 (nbt.go). */
  const IdEnd: uint8 := 0
  const IdByte: uint8 := 1
  const IdShort: uint8 := 2
  const IdInt: uint8 := 3
  const IdLong: uint8 := 4
  const IdFloat: uint8 := 5
  const IdDouble: uint8 := 6
  const IdByteArray: uint8 := 7
  const IdString: uint8 := 8
  const IdList: uint8 := 9
  const IdCompound: uint8 := 10
  const IdIntArray: uint8 := 11

  /** A tag: its name and its kind-specific value. The name of a list
      element is not written; the name of a compound member is its key. */
  datatype Tag = Tag(name: Bytes, value: Value)

  /** Float and Double keep their IEEE-754 bit patterns as opaque words.
      A List keeps its declared element kind as the raw byte read or set. */
  datatype Value =
    | End
    | Byte(b: int8)
    | Short(sh: int16)
    | Int(i: int32)
    | Long(l: int64)
    | Float(fbits: uint32)
    | Double(dbits: uint64)
    | ByteArray(bytes: Bytes)
    | String(text: Bytes)
    | List(elemType: uint8, elems: seq<Tag>)
    | Compound(entries: map<Bytes, Tag>)
    | IntArray(ints: seq<int32>)
  {
    /** `ID()`: the kind id of the value. */
    function Id(): (r: uint8)
      ensures r <= IdIntArray
      ensures r == IdEnd <==> End?
      ensures r == IdList <==> List?
      ensures r == IdCompound <==> Compound?
    {
      match this
      case End => IdEnd
      case Byte(_) => IdByte
      case Short(_) => IdShort
      case Int(_) => IdInt
      case Long(_) => IdLong
      case Float(_) => IdFloat
      case Double(_) => IdDouble
      case ByteArray(_) => IdByteArray
      case String(_) => IdString
      case List(_, _) => IdList
      case Compound(_) => IdCompound
      case IntArray(_) => IdIntArray
    }
  }

  /** The value `new(T)` gives each kind in Go: every field zero. */
  predicate IsZero(v: Value) {
    match v
    case End => true
    case Byte(x) => x == 0
    case Short(x) => x == 0
    case Int(x) => x == 0
    case Long(x) => x == 0
    case Float(bits) => bits == 0
    case Double(bits) => bits == 0
    case ByteArray(bytes) => bytes == []
    case String(text) => text == []
    case List(ty, elems) => ty == 0 && elems == []
    case Compound(m) => m == map[]
    case IntArray(xs) => xs == []
  }

  /** `getTagByID`: a zero-valued tag of the kind the id names, or nothing
      for an id outside 0..11. */
  function TagById(id: uint8): (r: Option<Value>)
    ensures r.Some? <==> id <= IdIntArray
    ensures r.Some? ==> r.value.Id() == id && IsZero(r.value)
  {
    if id == IdEnd then Some(End)
    else if id == IdByte then Some(Byte(0))
    else if id == IdShort then Some(Short(0))
    else if id == IdInt then Some(Int(0))
    else if id == IdLong then Some(Long(0))
    else if id == IdFloat then Some(Float(0))
    else if id == IdDouble then Some(Double(0))
    else if id == IdByteArray then Some(ByteArray([]))
    else if id == IdString then Some(String([]))
    else if id == IdList then Some(List(0, []))
    else if id == IdCompound then Some(Compound(map[]))
    else if id == IdIntArray then Some(IntArray([]))
    else None
  }

  /** Dispatch inverts `ID()`: the id of every value leads back to a zero
      value of that same kind. */
  lemma TagByIdInvertsId(v: Value)
    ensures TagById(v.Id()).Some?
    ensures TagById(v.Id()).value.Id() == v.Id()
    ensures IsZero(v) ==> TagById(v.Id()) == Some(v)
  {
  }

  /** `GetTagName`: the display name of a kind id. */
  function KindName(id: uint8): (r: string)
    ensures r == "Unknown" <==> id > IdIntArray
  {
    match id
    case 0 => "End"
    case 1 => "Byte"
    case 2 => "Short"
    case 3 => "Int"
    case 4 => "Long"
    case 5 => "Float"
    case 6 => "Double"
    case 7 => "ByteArray"
    case 8 => "String"
    case 9 => "List"
    case 10 => "Compound"
    case 11 => "IntArray"
    case _ => "Unknown"
  }

  /** Distinct kinds have distinct display names. */
  lemma KindNamesDistinct(a: uint8, b: uint8)
    requires a <= IdIntArray && b <= IdIntArray && a != b
    ensures KindName(a) != KindName(b)
  {
  }
}
