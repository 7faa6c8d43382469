/** The tree codec: framed tags (nbt.go Stream.ReadTag / Stream.WriteTag)
    and every kind's payload reader and writer (tag.go Read / Write), as
    mutually recursive pure functions over the remaining input.

    Readers return the decoded value with the bytes left after it. Writers
    return the bytes they emit; writing to the in-memory buffer never fails
    in Go, so they are total. The `Behaviour` argument selects between the
    code as written and the corrected code (see README, Findings). */
module Codec {
  import opened Ints
  import opened Results
  import opened Cursor
  import opened Binary
  import opened Tags
  import Compounds

  /** The order in which `Compound.Write` visits a map. Go leaves map
      iteration order unspecified, so the writers take it as a parameter.
      It depends on the map alone: two equal maps of one tree are visited
      in the same order, where Go may choose differently at each `range`. */
  type KeyOrder = map<Bytes, Tag> -> seq<Bytes>

  /** keys lists every key of m exactly once. */
  predicate IsKeyOrder(keys: seq<Bytes>, m: map<Bytes, Tag>) {
    && (forall k | k in keys :: k in m)
    && (forall k | k in m :: k in keys)
    && (forall i, j | 0 <= i < j < |keys| :: keys[i] != keys[j])
  }

  /** An order that is a permutation of the keys of every map. */
  ghost predicate ValidOrder(ord: KeyOrder) {
    forall m: map<Bytes, Tag> :: IsKeyOrder(ord(m), m)
  }

  // ---------------------------------------------------------------- reading

  /** `Stream.ReadTag`: an id byte; for End nothing else; otherwise a
      length-prefixed name and the kind's payload. Any failure yields an
      error and no tag. */
  function ReadTag(b: Behaviour, o: ByteOrder, s: Bytes): (r: Result<(Tag, Bytes)>)
    ensures |s| == 0 ==> r == Err(Truncated)
    ensures |s| > 0 && s[0] > IdIntArray ==> r == Err(InvalidTag(s[0]))
    ensures |s| > 0 && s[0] == IdEnd ==> r == Ok((Tag([], End), s[1..]))
    ensures r.Ok? ==> |r.value.1| < |s| && r.value.0.value.Id() == s[0]
    decreases |s|, 0, 0
  {
    var (id, afterId) :- ReadByte(s);
    match TagById(id)
    case None => Err(InvalidTag(id))
    case Some(zero) =>
      if id == IdEnd then Ok((Tag([], zero), afterId))
      else
        var (name, afterName) :- ReadString(b, o, afterId);
        var (v, rest) :- ReadPayload(b, o, id, afterName);
        Ok((Tag(name, v), rest))
  }

  /** A named tag whose name or payload cannot be read fails with that
      reader's error: `ReadTag` never returns part of a tag. */
  lemma ReadTagFailure(b: Behaviour, o: ByteOrder, s: Bytes)
    requires |s| > 0 && IdEnd < s[0] <= IdIntArray
    ensures ReadString(b, o, s[1..]).Err? ==> ReadTag(b, o, s) == Err(ReadString(b, o, s[1..]).error)
    ensures ReadString(b, o, s[1..]).Ok? && ReadPayload(b, o, s[0], ReadString(b, o, s[1..]).value.1).Err? ==>
              ReadTag(b, o, s) == Err(ReadPayload(b, o, s[0], ReadString(b, o, s[1..]).value.1).error)
  {
  }

  /** The payload reader `Read` of the kind `id` names. */
  function ReadPayload(b: Behaviour, o: ByteOrder, id: uint8, s: Bytes): (r: Result<(Value, Bytes)>)
    requires id <= IdIntArray
    ensures r.Ok? ==> r.value.0.Id() == id && |r.value.1| <= |s|
    decreases |s|, 2, 0
  {
    if id == IdEnd then Ok((End, s))
    else if id == IdList then ReadList(b, o, s)
    else if id == IdCompound then ReadCompound(b, o, s)
    else ReadLeaf(b, o, id, s)
  }

  /** The payload readers of the kinds that hold no tags. */
  function ReadLeaf(b: Behaviour, o: ByteOrder, id: uint8, s: Bytes): (r: Result<(Value, Bytes)>)
    requires id <= IdIntArray && id != IdEnd && id != IdList && id != IdCompound
    ensures r.Ok? ==> r.value.0.Id() == id && |r.value.1| <= |s|
  {
    if id <= IdLong then ReadInteger(b, o, id, s)
    else if id <= IdDouble then ReadFloating(o, id, s)
    else if id == IdByteArray then ReadByteArray(b, o, s)
    else if id == IdString then
      match ReadString(b, o, s)
      case Err(e) => Err(e)
      case Ok((text, rest)) => Ok((String(text), rest))
    else ReadIntArray(b, o, s)
  }

  /** `Byte.Read`, `Short.Read`, `Int.Read`, `Long.Read`. The last two
      discard the cursor's error: as written, a short read succeeds with the
      value the cursor returned alongside its error, which is 0 under the
      cursor assumption (see README), and consumes nothing. */
  function ReadInteger(b: Behaviour, o: ByteOrder, id: uint8, s: Bytes): (r: Result<(Value, Bytes)>)
    requires IdByte <= id <= IdLong
    ensures r.Ok? ==> r.value.0.Id() == id && |r.value.1| <= |s|
  {
    if id == IdByte then
      var (x, rest) :- ReadSigned(o, W8, s);
      Ok((Byte(x), rest))
    else if id == IdShort then
      var (x, rest) :- ReadSigned(o, W16, s);
      Ok((Short(x), rest))
    else if id == IdInt then
      match ReadSigned(o, W32, s)
      case Err(e) => if b == AsWritten then Ok((Int(0), s)) else Err(e)
      case Ok((x, rest)) => Ok((Int(x), rest))
    else
      match ReadSigned(o, W64, s)
      case Err(e) => if b == AsWritten then Ok((Long(0), s)) else Err(e)
      case Ok((x, rest)) => Ok((Long(x), rest))
  }

  /** `Float.Read` / `Double.Read`: the IEEE-754 bits as a 4- or 8-byte word. */
  function ReadFloating(o: ByteOrder, id: uint8, s: Bytes): (r: Result<(Value, Bytes)>)
    requires id == IdFloat || id == IdDouble
    ensures r.Ok? ==> r.value.0.Id() == id && |r.value.1| <= |s|
  {
    Pow256Values();
    if id == IdFloat then
      var (bits, rest) :- ReadUnsigned(o, 4, s);
      Ok((Float(bits), rest))
    else
      var (bits, rest) :- ReadUnsigned(o, 8, s);
      Ok((Double(bits), rest))
  }

  /** `Compound.Read`: the entries into a fresh map. */
  function ReadCompound(b: Behaviour, o: ByteOrder, s: Bytes): (r: Result<(Value, Bytes)>)
    ensures r.Ok? ==> r.value.0.Compound? && |r.value.1| < |s|
    decreases |s|, 1, 1
  {
    var (m, rest) :- ReadEntries(b, o, s, map[]);
    Ok((Compound(m), rest))
  }

  /** `List.Read`: the element kind byte, a signed 32-bit count, then that
      many anonymous payloads of that kind. */
  function ReadList(b: Behaviour, o: ByteOrder, s: Bytes): (r: Result<(Value, Bytes)>)
    ensures r.Ok? ==> r.value.0.List? && |r.value.1| < |s|
    decreases |s|, 1, 0
  {
    var (ty, afterType) :- ReadByte(s);
    var (count, afterCount) :- ReadSigned(o, W32, afterType);
    if count < 0 then Err(if b == AsWritten then Panic else InvalidLength)
    else if count == 0 then Ok((List(ty, []), afterCount))
    else if ty > IdIntArray then Err(InvalidListType(ty))
    else
      var (elems, rest) :- ReadListElems(b, o, ty, count, afterCount);
      Ok((List(ty, elems), rest))
  }

  /** The element loop of `List.Read`. A failing element read is reported
      as `NotEnough` whatever its cause; a panic still propagates. */
  function ReadListElems(b: Behaviour, o: ByteOrder, ty: uint8, count: nat, s: Bytes)
    : (r: Result<(seq<Tag>, Bytes)>)
    requires ty <= IdIntArray
    ensures r.Ok? ==> |r.value.0| == count && |r.value.1| <= |s|
    ensures r.Err? ==> r.error == Panic || r.error == NotEnough
    decreases |s|, 3, count
  {
    if count == 0 then Ok(([], s))
    else
      match ReadPayload(b, o, ty, s)
      case Err(e) => Err(if e == Panic then Panic else NotEnough)
      case Ok((v, afterElem)) =>
        var (vs, rest) :- ReadListElems(b, o, ty, count - 1, afterElem);
        Ok(([Tag([], v)] + vs, rest))
  }

  /** Every element a list read produces is anonymous and of the declared
      kind. */
  lemma {:induction false} ListElemsAreAnonymous(b: Behaviour, o: ByteOrder, ty: uint8, count: nat, s: Bytes)
    requires ty <= IdIntArray
    requires ReadListElems(b, o, ty, count, s).Ok?
    ensures forall t | t in ReadListElems(b, o, ty, count, s).value.0 :: t.name == [] && t.value.Id() == ty
    decreases count
  {
    if count > 0 {
      var v, afterElem, vs := ListElemsStep(b, o, ty, count, s);
      ListElemsAreAnonymous(b, o, ty, count - 1, afterElem);
      AnonymousCons(ty, v, vs, ReadListElems(b, o, ty, count, s).value.0);
    }
  }

  /** A successful element loop is its first payload v, anonymous, before
      the elements vs the rest of the loop reads from what follows v. */
  lemma ListElemsStep(b: Behaviour, o: ByteOrder, ty: uint8, count: nat, s: Bytes)
    returns (v: Value, afterElem: Bytes, vs: seq<Tag>)
    requires ty <= IdIntArray && count > 0
    requires ReadListElems(b, o, ty, count, s).Ok?
    ensures ReadPayload(b, o, ty, s) == Ok((v, afterElem)) && v.Id() == ty
    ensures ReadListElems(b, o, ty, count - 1, afterElem).Ok?
    ensures vs == ReadListElems(b, o, ty, count - 1, afterElem).value.0
    ensures ReadListElems(b, o, ty, count, s).value.0 == [Tag([], v)] + vs
  {
    v, afterElem := ReadPayload(b, o, ty, s).value.0, ReadPayload(b, o, ty, s).value.1;
    vs := ReadListElems(b, o, ty, count - 1, afterElem).value.0;
  }

  /** Prepending an anonymous element of kind ty keeps every element so. */
  lemma AnonymousCons(ty: uint8, v: Value, vs: seq<Tag>, r: seq<Tag>)
    requires r == [Tag([], v)] + vs && v.Id() == ty
    requires forall t | t in vs :: t.name == [] && t.value.Id() == ty
    ensures forall t | t in r :: t.name == [] && t.value.Id() == ty
  {
  }

  /** The loop of `Compound.Read`: framed tags until an End tag, each stored
      under its own name over whatever was stored there before. */
  function ReadEntries(b: Behaviour, o: ByteOrder, s: Bytes, acc: map<Bytes, Tag>)
    : (r: Result<(map<Bytes, Tag>, Bytes)>)
    ensures r.Ok? ==> acc.Keys <= r.value.0.Keys && |r.value.1| < |s|
    ensures ReadTag(b, o, s).Err? ==> r == Err(ReadTag(b, o, s).error)
    decreases |s|, 1, 0
  {
    var (t, rest) :- ReadTag(b, o, s);
    if t.value.Id() == IdEnd then Ok((acc, rest))
    else ReadEntries(b, o, rest, Compounds.Set(acc, t))
  }

  /** `ByteArray.Read`: a signed 32-bit count, then an unchecked span read.
      The code returns the count read's error only after the span read.
      Under the cursor assumption (see README) a failed count read yields 0,
      and `Get(0)` cannot fail, so the model returns that error at once. */
  function ReadByteArray(b: Behaviour, o: ByteOrder, s: Bytes): (r: Result<(Value, Bytes)>)
    ensures r.Ok? ==> r.value.0.ByteArray? && |r.value.1| <= |s|
  {
    var (count, rest) :- ReadSigned(o, W32, s);
    if b == Intended && count < 0 then Err(InvalidLength)
    else if b == Intended && count > |rest| then Err(Truncated)
    else
      var (bytes, after) :- Get(count, rest);
      Ok((ByteArray(bytes), after))
  }

  /** `IntArray.Read`: a signed 32-bit count, then that many 32-bit ints.
      As written, the ints are stored into a nil slice, so the first int
      that is read successfully makes the code panic. */
  function ReadIntArray(b: Behaviour, o: ByteOrder, s: Bytes): (r: Result<(Value, Bytes)>)
    ensures r.Ok? ==> r.value.0.IntArray? && |r.value.1| <= |s|
  {
    var (count, rest) :- ReadSigned(o, W32, s);
    if b == AsWritten then
      if count <= 0 then Ok((IntArray([]), rest))
      else
        var _ :- ReadSigned(o, W32, rest);
        Err(Panic)
    else if count < 0 then Err(InvalidLength)
    else
      var (xs, after) :- ReadInts(o, count, rest);
      Ok((IntArray(xs), after))
  }

  /** n signed 32-bit ints in a row. */
  function ReadInts(o: ByteOrder, n: nat, s: Bytes): (r: Result<(seq<int32>, Bytes)>)
    ensures r.Ok? <==> |s| >= 4 * n
    ensures r.Ok? ==> |r.value.0| == n && r.value.1 == s[4 * n..]
  {
    if n == 0 then Ok(([], s))
    else
      var (x, afterInt) :- ReadSigned(o, W32, s);
      var (xs, rest) :- ReadInts(o, n - 1, afterInt);
      Ok(([x] + xs, rest))
  }

  // ---------------------------------------------------------------- writing

  /** `Stream.WriteTag`: the id byte, the name, then the payload. */
  function WriteTag(b: Behaviour, o: ByteOrder, ord: KeyOrder, t: Tag): (r: Bytes)
    ensures |r| >= 3 && r[0] == t.value.Id()
    decreases t.value, 3
  {
    [t.value.Id()] + WriteString(o, t.name) + WritePayload(b, o, ord, t.value)
  }

  /** The payload writer `Write` of the value's kind; `PayloadLayout` states
      what each kind writes. */
  function WritePayload(b: Behaviour, o: ByteOrder, ord: KeyOrder, v: Value): (r: Bytes)
    decreases v, 2
  {
    match v
    case End => []
    case Byte(x) => WriteSigned(o, W8, x)
    case Short(x) => WriteSigned(o, W16, x)
    case Int(x) => WriteSigned(o, W32, x)
    case Long(x) => WriteSigned(o, W64, x)
    case Float(bits) => Encode(o, 4, bits)
    case Double(bits) => Encode(o, 8, bits)
    case ByteArray(bytes) =>
      if b == AsWritten then bytes else WriteSigned(o, W32, |bytes|) + bytes
    case String(text) => WriteString(o, text)
    case List(ty, elems) =>
      [ty] + WriteSigned(o, W32, |elems|) + WriteListElems(b, o, ord, ty, elems, v)
    case Compound(m) => WriteEntries(b, o, ord, ord(m), m, v) + [IdEnd]
    case IntArray(xs) => WriteSigned(o, W32, |xs|) + WriteInts(o, xs)
  }

  /** The layout of every kind's payload: the fixed-width kinds take their
      width; a ByteArray is its bytes, behind a count only when corrected; a
      String is its bytes behind a two-byte length; a List starts with its
      element kind and its count, an IntArray with its count; a Compound
      ends with the End id; End writes nothing. */
  lemma PayloadLayout(b: Behaviour, o: ByteOrder, ord: KeyOrder, v: Value, r: Bytes)
    requires r == WritePayload(b, o, ord, v)
    ensures v.End? ==> r == []
    ensures v.Byte? ==> |r| == 1
    ensures v.Short? ==> |r| == 2
    ensures v.Int? || v.Float? ==> |r| == 4
    ensures v.Long? || v.Double? ==> |r| == 8
    ensures v.ByteArray? ==>
              |r| == (if b == AsWritten then 0 else 4) + |v.bytes| && r[|r| - |v.bytes|..] == v.bytes
    ensures v.String? ==> |r| == 2 + |v.text| && r[2..] == v.text
    ensures v.List? ==> |r| >= 5 && r[0] == v.elemType && r[1..5] == WriteSigned(o, W32, |v.elems|)
    ensures v.Compound? ==> |r| >= 1 && r[|r| - 1] == IdEnd
    ensures v.IntArray? ==> |r| == 4 + 4 * |v.ints| && r[..4] == WriteSigned(o, W32, |v.ints|)
  {
  }

  /** The element loop of `List.Write`: the payload of every element whose
      kind is the declared one; other elements are skipped. */
  function WriteListElems(b: Behaviour, o: ByteOrder, ord: KeyOrder, ty: uint8, elems: seq<Tag>,
                          ghost parent: Value): (r: Bytes)
    requires forall i | 0 <= i < |elems| :: elems[i].value < parent
    decreases parent, 1, |elems|
  {
    if elems == [] then []
    else
      (if elems[0].value.Id() == ty then WritePayload(b, o, ord, elems[0].value) else [])
      + WriteListElems(b, o, ord, ty, elems[1..], parent)
  }

  /** A list none of whose elements has the declared kind writes no
      element bytes at all. */
  lemma {:induction false} ListElemsOfOtherKinds(b: Behaviour, o: ByteOrder, ord: KeyOrder, ty: uint8,
                                                 elems: seq<Tag>, parent: Value)
    requires forall i | 0 <= i < |elems| :: elems[i].value < parent
    requires forall i | 0 <= i < |elems| :: elems[i].value.Id() != ty
    ensures WriteListElems(b, o, ord, ty, elems, parent) == []
    decreases |elems|
  {
    if elems != [] {
      assert forall i | 0 <= i < |elems[1..]| :: elems[1..][i] == elems[i + 1];
      ListElemsOfOtherKinds(b, o, ord, ty, elems[1..], parent);
    }
  }

  /** The loop of `Compound.Write`: each entry framed under its key. The
      order only ever lists keys of the map; one that is not is skipped. */
  function WriteEntries(b: Behaviour, o: ByteOrder, ord: KeyOrder, keys: seq<Bytes>,
                        m: map<Bytes, Tag>, ghost parent: Value): (r: Bytes)
    requires parent == Compound(m)
    ensures (forall i | 0 <= i < |keys| :: keys[i] !in m) ==> r == []
    ensures |keys| > 0 && keys[0] in m ==> |r| >= 3 && r[0] == m[keys[0]].value.Id()
    decreases parent, 1, |keys|
  {
    if keys == [] then []
    else if keys[0] !in m then WriteEntries(b, o, ord, keys[1..], m, parent)
    else
      assert m[keys[0]] in m.Values;
      WriteTag(b, o, ord, Tag(keys[0], m[keys[0]].value))
      + WriteEntries(b, o, ord, keys[1..], m, parent)
  }

  /** n signed 32-bit ints in a row. */
  function WriteInts(o: ByteOrder, xs: seq<int32>): (r: Bytes)
    ensures |r| == 4 * |xs|
  {
    if xs == [] then [] else WriteSigned(o, W32, xs[0]) + WriteInts(o, xs[1..])
  }
}
