/** Round trips of the tree codec: reading back what the writer emitted
    gives the tree that was written, whatever key order the writer used.

    Under the code as written this holds only for the trees the Go code can
    reproduce: no ByteArray (its writer emits no length), no non-empty
    IntArray (its reader panics), and lists whose elements all have the
    declared kind and an empty name. Under the intended behaviour ByteArray
    and IntArray of any length below 2^31 round-trip as well. */
module RoundTrip {
  import opened Ints
  import opened Results
  import opened Cursor
  import opened Binary
  import opened Tags
  import opened Codec

  /** The values the codec reproduces exactly under behaviour b. */
  ghost predicate WellFormedValue(b: Behaviour, v: Value)
    decreases v
  {
    match v
    case ByteArray(bytes) => b == Intended && |bytes| < 0x8000_0000
    case String(text) => |text| < 0x1_0000
    case IntArray(xs) => if b == AsWritten then xs == [] else |xs| < 0x8000_0000
    case List(ty, elems) =>
      && |elems| < 0x8000_0000
      && forall i | 0 <= i < |elems| ::
           && elems[i].name == []
           && elems[i].value.Id() == ty
           && WellFormedValue(b, elems[i].value)
    case Compound(m) =>
      forall k | k in m ::
        && |k| < 0x1_0000
        && m[k].name == k
        && m[k].value.Id() != IdEnd
        && WellFormedValue(b, m[k].value)
    case _ => true
  }

  /** A root or compound member the codec reproduces: a writable name and a
      value other than End (End is only ever an in-band terminator). */
  ghost predicate WellFormedTag(b: Behaviour, t: Tag) {
    |t.name| < 0x1_0000 && t.value.Id() != IdEnd && WellFormedValue(b, t.value)
  }

  /** m after storing, in order, the entry of every key of keys. */
  function Store(acc: map<Bytes, Tag>, keys: seq<Bytes>, m: map<Bytes, Tag>): map<Bytes, Tag>
    requires forall k | k in keys :: k in m
    decreases |keys|
  {
    if keys == [] then acc else Store(acc[keys[0] := m[keys[0]]], keys[1..], m)
  }

  lemma {:induction false} StoreContents(acc: map<Bytes, Tag>, keys: seq<Bytes>, m: map<Bytes, Tag>)
    requires forall k | k in keys :: k in m
    ensures forall k :: k in Store(acc, keys, m) <==> k in acc || k in keys
    ensures forall k | k in keys :: Store(acc, keys, m)[k] == m[k]
    ensures forall k | k in acc && k !in keys :: Store(acc, keys, m)[k] == acc[k]
    decreases |keys|
  {
    if keys != [] {
      StoreContents(acc[keys[0] := m[keys[0]]], keys[1..], m);
      assert forall k :: k in keys <==> k == keys[0] || k in keys[1..];
    }
  }

  /** Storing every key of m, in any order, into an empty map rebuilds m. */
  lemma StoreAllKeys(keys: seq<Bytes>, m: map<Bytes, Tag>)
    requires IsKeyOrder(keys, m)
    ensures Store(map[], keys, m) == m
  {
    StoreContents(map[], keys, m);
  }

  lemma WriteIntsCons(o: ByteOrder, xs: seq<int32>, rest: Bytes)
    requires xs != []
    ensures WriteInts(o, xs) + rest == WriteSigned(o, W32, xs[0]) + (WriteInts(o, xs[1..]) + rest)
  {
  }

  lemma ReadIntsCons(o: ByteOrder, n: nat, s: Bytes, x: int32, tail: Bytes, xs: seq<int32>, rest: Bytes)
    requires n > 0
    requires ReadSigned(o, W32, s) == Ok((x, tail))
    requires ReadInts(o, n - 1, tail) == Ok((xs, rest))
    ensures ReadInts(o, n, s) == Ok(([x] + xs, rest))
  {
  }

  /** Reading back n written 32-bit ints returns them and consumes exactly
      4n bytes. */
  lemma {:induction false} ReadIntsRoundTrip(o: ByteOrder, xs: seq<int32>, rest: Bytes)
    ensures ReadInts(o, |xs|, WriteInts(o, xs) + rest) == Ok((xs, rest))
  {
    if xs != [] {
      var tail := WriteInts(o, xs[1..]) + rest;
      WriteIntsCons(o, xs, rest);
      SignedRoundTrip(o, W32, xs[0], tail);
      ReadIntsRoundTrip(o, xs[1..], rest);
      ReadIntsCons(o, |xs|, WriteSigned(o, W32, xs[0]) + tail, xs[0], tail, xs[1..], rest);
      assert [xs[0]] + xs[1..] == xs;
    }
  }

  lemma IntegerDispatch(b: Behaviour, o: ByteOrder, id: uint8, s: Bytes)
    requires IdByte <= id <= IdLong
    ensures ReadPayload(b, o, id, s) == ReadInteger(b, o, id, s)
  {
  }

  lemma IntegerReadBack(b: Behaviour, o: ByteOrder, ord: KeyOrder, v: Value, rest: Bytes)
    requires v.Byte? || v.Short? || v.Int? || v.Long?
    ensures ReadInteger(b, o, v.Id(), WritePayload(b, o, ord, v) + rest) == Ok((v, rest))
  {
    match v
    case Byte(x) => SignedRoundTrip(o, W8, x, rest);
    case Short(x) => SignedRoundTrip(o, W16, x, rest);
    case Int(x) => SignedRoundTrip(o, W32, x, rest);
    case Long(x) => SignedRoundTrip(o, W64, x, rest);
  }

  /** Byte, Short, Int and Long payloads round-trip under either byte order
      and take exactly 1, 2, 4 and 8 bytes. */
  lemma IntegerPayloadRoundTrip(b: Behaviour, o: ByteOrder, ord: KeyOrder, v: Value, rest: Bytes)
    requires v.Byte? || v.Short? || v.Int? || v.Long?
    ensures |WritePayload(b, o, ord, v)| == (if v.Byte? then 1 else if v.Short? then 2 else if v.Int? then 4 else 8)
    ensures ReadPayload(b, o, v.Id(), WritePayload(b, o, ord, v) + rest) == Ok((v, rest))
  {
    IntegerReadBack(b, o, ord, v, rest);
    IntegerDispatch(b, o, v.Id(), WritePayload(b, o, ord, v) + rest);
  }

  lemma FloatingPayloadRoundTrip(b: Behaviour, o: ByteOrder, ord: KeyOrder, v: Value, rest: Bytes)
    requires v.Float? || v.Double?
    ensures ReadPayload(b, o, v.Id(), WritePayload(b, o, ord, v) + rest) == Ok((v, rest))
  {
    Pow256Values();
    var s := WritePayload(b, o, ord, v) + rest;
    match v
    case Float(bits) =>
      UnsignedRoundTrip(o, 4, bits, rest);
      assert ReadFloating(o, IdFloat, s) == Ok((v, rest));
    case Double(bits) =>
      UnsignedRoundTrip(o, 8, bits, rest);
      assert ReadFloating(o, IdDouble, s) == Ok((v, rest));
  }

  /** With its length prefix restored, a ByteArray payload round-trips. */
  lemma ByteArrayPayloadRoundTrip(o: ByteOrder, ord: KeyOrder, bytes: Bytes, rest: Bytes)
    requires |bytes| < 0x8000_0000
    ensures ReadPayload(Intended, o, IdByteArray, WritePayload(Intended, o, ord, ByteArray(bytes)) + rest)
            == Ok((ByteArray(bytes), rest))
  {
    var s := WritePayload(Intended, o, ord, ByteArray(bytes)) + rest;
    assert s == WriteSigned(o, W32, |bytes|) + (bytes + rest);
    SignedRoundTrip(o, W32, |bytes|, bytes + rest);
    assert ReadSigned(o, W32, s) == Ok((|bytes|, bytes + rest));
    assert (bytes + rest)[..|bytes|] == bytes && (bytes + rest)[|bytes|..] == rest;
    assert Get(|bytes|, bytes + rest) == Ok((bytes, rest));
    assert ReadByteArray(Intended, o, s) == Ok((ByteArray(bytes), rest));
  }

  // ------------------------------------------------------------ read steps
  // Each step states how one reader continues once the reads it is built
  // from are known, so that the round trips below never unfold more than
  // one reader at a time.

  lemma ReadIntArrayStep(b: Behaviour, o: ByteOrder, s: Bytes, n: int, t: Bytes, xs: seq<int32>, rest: Bytes)
    requires ReadSigned(o, W32, s) == Ok((n, t))
    requires b == AsWritten ==> n == 0 && t == rest && xs == []
    requires b == Intended ==> n == |xs| && ReadInts(o, n, t) == Ok((xs, rest))
    ensures ReadIntArray(b, o, s) == Ok((IntArray(xs), rest))
  {
  }

  lemma ReadIntArrayDispatch(b: Behaviour, o: ByteOrder, s: Bytes)
    ensures ReadPayload(b, o, IdIntArray, s) == ReadIntArray(b, o, s)
  {
  }

  lemma WriteIntArrayLayout(b: Behaviour, o: ByteOrder, ord: KeyOrder, xs: seq<int32>, rest: Bytes)
    ensures WritePayload(b, o, ord, IntArray(xs)) + rest == WriteSigned(o, W32, |xs|) + (WriteInts(o, xs) + rest)
  {
  }

  /** An IntArray payload round-trips: the empty one under the code as
      written, any one under the intended behaviour. */
  lemma IntArrayPayloadRoundTrip(b: Behaviour, o: ByteOrder, ord: KeyOrder, xs: seq<int32>, rest: Bytes)
    requires WellFormedValue(b, IntArray(xs))
    ensures ReadPayload(b, o, IdIntArray, WritePayload(b, o, ord, IntArray(xs)) + rest)
            == Ok((IntArray(xs), rest))
  {
    var t := WriteInts(o, xs) + rest;
    var s := WriteSigned(o, W32, |xs|) + t;
    WriteIntArrayLayout(b, o, ord, xs, rest);
    SignedRoundTrip(o, W32, |xs|, t);
    if b == Intended {
      ReadIntsRoundTrip(o, xs, rest);
    }
    ReadIntArrayStep(b, o, s, |xs|, t, xs, rest);
    ReadIntArrayDispatch(b, o, s);
  }

  /** Every well-formed payload of a kind without children round-trips. */
  lemma LeafPayloadRoundTrip(b: Behaviour, o: ByteOrder, ord: KeyOrder, v: Value, rest: Bytes)
    requires !v.End? && !v.List? && !v.Compound?
    requires WellFormedValue(b, v)
    ensures ReadPayload(b, o, v.Id(), WritePayload(b, o, ord, v) + rest) == Ok((v, rest))
  {
    if v.Byte? || v.Short? || v.Int? || v.Long? {
      IntegerPayloadRoundTrip(b, o, ord, v, rest);
    } else if v.Float? || v.Double? {
      FloatingPayloadRoundTrip(b, o, ord, v, rest);
    } else if v.ByteArray? {
      ByteArrayPayloadRoundTrip(o, ord, v.bytes, rest);
    } else if v.String? {
      StringRoundTrip(b, o, v.text, rest);
      assert ReadLeaf(b, o, IdString, WriteString(o, v.text) + rest) == Ok((v, rest));
    } else {
      IntArrayPayloadRoundTrip(b, o, ord, v.ints, rest);
    }
  }

  lemma Reassociate(a: Bytes, x: Bytes, y: Bytes, z: Bytes)
    ensures a + x + y + z == a + (x + (y + z))
  {
  }

  lemma WriteTagLayout(b: Behaviour, o: ByteOrder, ord: KeyOrder, t: Tag, rest: Bytes)
    ensures WriteTag(b, o, ord, t) + rest
            == [t.value.Id()] + (WriteString(o, t.name) + (WritePayload(b, o, ord, t.value) + rest))
  {
    Reassociate([t.value.Id()], WriteString(o, t.name), WritePayload(b, o, ord, t.value), rest);
  }

  lemma ReadTagCons(b: Behaviour, o: ByteOrder, id: uint8, name: Bytes, payload: Bytes, v: Value, rest: Bytes)
    requires IdEnd < id <= IdIntArray && |name| < 0x1_0000
    requires ReadPayload(b, o, id, payload) == Ok((v, rest))
    ensures ReadTag(b, o, [id] + (WriteString(o, name) + payload)) == Ok((Tag(name, v), rest))
  {
    var s := [id] + (WriteString(o, name) + payload);
    assert s[1..] == WriteString(o, name) + payload;
    StringRoundTrip(b, o, name, payload);
  }

  /** A framed tag, once its payload is known to read back. */
  lemma TagStep(b: Behaviour, o: ByteOrder, ord: KeyOrder, t: Tag, rest: Bytes)
    requires IdEnd < t.value.Id() && |t.name| < 0x1_0000
    requires ReadPayload(b, o, t.value.Id(), WritePayload(b, o, ord, t.value) + rest) == Ok((t.value, rest))
    ensures ReadTag(b, o, WriteTag(b, o, ord, t) + rest) == Ok((t, rest))
  {
    WriteTagLayout(b, o, ord, t, rest);
    ReadTagCons(b, o, t.value.Id(), t.name, WritePayload(b, o, ord, t.value) + rest, t.value, rest);
  }

  lemma WriteListLayout(b: Behaviour, o: ByteOrder, ord: KeyOrder, v: Value, rest: Bytes)
    requires v.List?
    ensures WritePayload(b, o, ord, v) + rest
            == [v.elemType] + (WriteSigned(o, W32, |v.elems|)
                               + (WriteListElems(b, o, ord, v.elemType, v.elems, v) + rest))
  {
    Reassociate([v.elemType], WriteSigned(o, W32, |v.elems|),
                WriteListElems(b, o, ord, v.elemType, v.elems, v), rest);
  }

  lemma ReadListCons(b: Behaviour, o: ByteOrder, ty: uint8, elems: seq<Tag>, body: Bytes, rest: Bytes)
    requires |elems| < 0x8000_0000
    requires elems == [] ==> body == rest
    requires elems != [] ==> ty <= IdIntArray && ReadListElems(b, o, ty, |elems|, body) == Ok((elems, rest))
    ensures ReadPayload(b, o, IdList, [ty] + (WriteSigned(o, W32, |elems|) + body)) == Ok((List(ty, elems), rest))
  {
    var s := [ty] + (WriteSigned(o, W32, |elems|) + body);
    assert ReadByte(s) == Ok((ty, WriteSigned(o, W32, |elems|) + body));
    SignedRoundTrip(o, W32, |elems|, body);
  }

  /** A list payload, once its elements are known to read back. */
  lemma ListStep(b: Behaviour, o: ByteOrder, ord: KeyOrder, v: Value, rest: Bytes)
    requires v.List? && |v.elems| < 0x8000_0000
    requires v.elems != [] ==>
               && v.elemType <= IdIntArray
               && ReadListElems(b, o, v.elemType, |v.elems|,
                                WriteListElems(b, o, ord, v.elemType, v.elems, v) + rest)
                  == Ok((v.elems, rest))
    ensures ReadPayload(b, o, IdList, WritePayload(b, o, ord, v) + rest) == Ok((v, rest))
  {
    WriteListLayout(b, o, ord, v, rest);
    assert v.elems == [] ==> WriteListElems(b, o, ord, v.elemType, v.elems, v) + rest == rest;
    ReadListCons(b, o, v.elemType, v.elems, WriteListElems(b, o, ord, v.elemType, v.elems, v) + rest, rest);
  }

  lemma WriteListElemsCons(b: Behaviour, o: ByteOrder, ord: KeyOrder, ty: uint8, elems: seq<Tag>,
                           parent: Value, rest: Bytes)
    requires forall i | 0 <= i < |elems| :: elems[i].value < parent
    requires elems != [] && elems[0].value.Id() == ty
    ensures WriteListElems(b, o, ord, ty, elems, parent) + rest
            == WritePayload(b, o, ord, elems[0].value) + (WriteListElems(b, o, ord, ty, elems[1..], parent) + rest)
  {
  }

  lemma ReadListElemsCons(b: Behaviour, o: ByteOrder, ty: uint8, n: nat, p: Bytes, tail: Bytes,
                          v: Value, vs: seq<Tag>, rest: Bytes)
    requires ty <= IdIntArray && n > 0
    requires ReadPayload(b, o, ty, p + tail) == Ok((v, tail))
    requires ReadListElems(b, o, ty, n - 1, tail) == Ok((vs, rest))
    ensures ReadListElems(b, o, ty, n, p + tail) == Ok(([Tag([], v)] + vs, rest))
  {
  }

  /** One more list element, once it and the elements after it are known
      to read back. */
  lemma ElemsStep(b: Behaviour, o: ByteOrder, ord: KeyOrder, ty: uint8, elems: seq<Tag>,
                  rest: Bytes, parent: Value)
    requires ty <= IdIntArray
    requires forall i | 0 <= i < |elems| :: elems[i].value < parent
    requires elems != [] && elems[0].name == [] && elems[0].value.Id() == ty
    requires ReadPayload(b, o, ty, WritePayload(b, o, ord, elems[0].value)
                                   + (WriteListElems(b, o, ord, ty, elems[1..], parent) + rest))
             == Ok((elems[0].value, WriteListElems(b, o, ord, ty, elems[1..], parent) + rest))
    requires ReadListElems(b, o, ty, |elems| - 1, WriteListElems(b, o, ord, ty, elems[1..], parent) + rest)
             == Ok((elems[1..], rest))
    ensures ReadListElems(b, o, ty, |elems|, WriteListElems(b, o, ord, ty, elems, parent) + rest)
            == Ok((elems, rest))
  {
    WriteListElemsCons(b, o, ord, ty, elems, parent, rest);
    ElemsCombine(b, o, ty, |elems|, WriteListElems(b, o, ord, ty, elems, parent) + rest,
                 WritePayload(b, o, ord, elems[0].value),
                 WriteListElems(b, o, ord, ty, elems[1..], parent) + rest,
                 elems[0].value, elems[1..], rest);
    AnonymousHead(elems);
  }

  lemma ElemsCombine(b: Behaviour, o: ByteOrder, ty: uint8, n: nat, s: Bytes, p: Bytes, tail: Bytes,
                     v: Value, vs: seq<Tag>, rest: Bytes)
    requires ty <= IdIntArray && n > 0
    requires s == p + tail
    requires ReadPayload(b, o, ty, p + tail) == Ok((v, tail))
    requires ReadListElems(b, o, ty, n - 1, tail) == Ok((vs, rest))
    ensures ReadListElems(b, o, ty, n, s) == Ok(([Tag([], v)] + vs, rest))
  {
    ReadListElemsCons(b, o, ty, n, p, tail, v, vs, rest);
  }

  lemma AnonymousHead(elems: seq<Tag>)
    requires elems != [] && elems[0].name == []
    ensures [Tag([], elems[0].value)] + elems[1..] == elems
  {
  }

  lemma WriteCompoundLayout(b: Behaviour, o: ByteOrder, ord: KeyOrder, v: Value, rest: Bytes)
    requires v.Compound?
    ensures WritePayload(b, o, ord, v) + rest
            == WriteEntries(b, o, ord, ord(v.entries), v.entries, v) + [IdEnd] + rest
  {
  }

  lemma ReadCompoundCons(b: Behaviour, o: ByteOrder, s: Bytes, m: map<Bytes, Tag>, rest: Bytes)
    requires ReadEntries(b, o, s, map[]) == Ok((m, rest))
    ensures ReadPayload(b, o, IdCompound, s) == Ok((Compound(m), rest))
  {
  }

  /** A compound payload, once its entries are known to read back. */
  lemma CompoundStep(b: Behaviour, o: ByteOrder, ord: KeyOrder, v: Value, rest: Bytes)
    requires v.Compound? && IsKeyOrder(ord(v.entries), v.entries)
    requires ReadEntries(b, o, WriteEntries(b, o, ord, ord(v.entries), v.entries, v) + [IdEnd] + rest, map[])
             == Ok((Store(map[], ord(v.entries), v.entries), rest))
    ensures ReadPayload(b, o, IdCompound, WritePayload(b, o, ord, v) + rest) == Ok((v, rest))
  {
    StoreAllKeys(ord(v.entries), v.entries);
    WriteCompoundLayout(b, o, ord, v, rest);
    ReadCompoundCons(b, o, WriteEntries(b, o, ord, ord(v.entries), v.entries, v) + [IdEnd] + rest,
                     v.entries, rest);
  }

  /** No more entries: the End tag closes the compound. */
  lemma EntriesEndStep(b: Behaviour, o: ByteOrder, ord: KeyOrder, m: map<Bytes, Tag>,
                       acc: map<Bytes, Tag>, rest: Bytes)
    ensures ReadEntries(b, o, WriteEntries(b, o, ord, [], m, Compound(m)) + [IdEnd] + rest, acc)
            == Ok((Store(acc, [], m), rest))
  {
    assert WriteEntries(b, o, ord, [], m, Compound(m)) + [IdEnd] + rest == [IdEnd] + rest;
    assert ([IdEnd] + rest)[1..] == rest;
  }

  lemma WriteEntriesCons(b: Behaviour, o: ByteOrder, ord: KeyOrder, keys: seq<Bytes>,
                         m: map<Bytes, Tag>, rest: Bytes)
    requires forall k | k in keys :: k in m
    requires keys != []
    ensures WriteEntries(b, o, ord, keys, m, Compound(m)) + [IdEnd] + rest
            == WriteTag(b, o, ord, Tag(keys[0], m[keys[0]].value))
               + (WriteEntries(b, o, ord, keys[1..], m, Compound(m)) + [IdEnd] + rest)
  {
  }

  lemma ReadEntriesCons(b: Behaviour, o: ByteOrder, p: Bytes, tail: Bytes, t: Tag,
                        acc: map<Bytes, Tag>, result: Result<(map<Bytes, Tag>, Bytes)>)
    requires ReadTag(b, o, p + tail) == Ok((t, tail))
    requires t.value.Id() != IdEnd
    requires ReadEntries(b, o, tail, acc[t.name := t]) == result
    ensures ReadEntries(b, o, p + tail, acc) == result
  {
  }

  /** One more entry, once it and the entries after it are known to read
      back. */
  lemma EntriesStep(b: Behaviour, o: ByteOrder, ord: KeyOrder, keys: seq<Bytes>,
                    m: map<Bytes, Tag>, acc: map<Bytes, Tag>, rest: Bytes)
    requires forall k | k in keys :: k in m
    requires keys != [] && m[keys[0]].value.Id() != IdEnd && m[keys[0]].name == keys[0]
    requires ReadTag(b, o, WriteTag(b, o, ord, m[keys[0]])
                           + (WriteEntries(b, o, ord, keys[1..], m, Compound(m)) + [IdEnd] + rest))
             == Ok((m[keys[0]], WriteEntries(b, o, ord, keys[1..], m, Compound(m)) + [IdEnd] + rest))
    requires ReadEntries(b, o, WriteEntries(b, o, ord, keys[1..], m, Compound(m)) + [IdEnd] + rest,
                         acc[keys[0] := m[keys[0]]])
             == Ok((Store(acc[keys[0] := m[keys[0]]], keys[1..], m), rest))
    ensures ReadEntries(b, o, WriteEntries(b, o, ord, keys, m, Compound(m)) + [IdEnd] + rest, acc)
            == Ok((Store(acc, keys, m), rest))
  {
    var k := keys[0];
    assert m[k] == Tag(k, m[k].value);
    WriteEntriesCons(b, o, ord, keys, m, rest);
    ReadEntriesCons(b, o, WriteTag(b, o, ord, m[k]),
                    WriteEntries(b, o, ord, keys[1..], m, Compound(m)) + [IdEnd] + rest,
                    m[k], acc, Ok((Store(acc[k := m[k]], keys[1..], m), rest)));
  }

  // ------------------------------------------------------------ round trips

  /** Reading back a written framed tag returns it, name included, and
      consumes exactly what was written, under either byte order and for
      every key order the writer may follow. */
  lemma {:induction false} TagRoundTrip(b: Behaviour, o: ByteOrder, ord: KeyOrder, t: Tag, rest: Bytes)
    requires ValidOrder(ord)
    requires WellFormedTag(b, t)
    ensures ReadTag(b, o, WriteTag(b, o, ord, t) + rest) == Ok((t, rest))
    decreases t.value, 3
  {
    PayloadRoundTrip(b, o, ord, t.value, rest);
    TagStep(b, o, ord, t, rest);
  }

  /** Reading back a written payload of a well-formed value returns it and
      consumes exactly what was written. */
  lemma {:induction false} PayloadRoundTrip(b: Behaviour, o: ByteOrder, ord: KeyOrder, v: Value, rest: Bytes)
    requires ValidOrder(ord)
    requires WellFormedValue(b, v)
    ensures ReadPayload(b, o, v.Id(), WritePayload(b, o, ord, v) + rest) == Ok((v, rest))
    decreases v, 2
  {
    match v
    case End =>
      assert WritePayload(b, o, ord, v) + rest == rest;
    case List(ty, elems) =>
      if elems != [] {
        assert elems[0].value.Id() == ty;
        ElemsRoundTrip(b, o, ord, ty, elems, rest, v);
      }
      ListStep(b, o, ord, v, rest);
    case Compound(m) =>
      EntriesRoundTrip(b, o, ord, ord(m), m, map[], rest, v);
      CompoundStep(b, o, ord, v, rest);
    case _ =>
      LeafPayloadRoundTrip(b, o, ord, v, rest);
  }

  lemma {:induction false} ElemsRoundTrip(b: Behaviour, o: ByteOrder, ord: KeyOrder, ty: uint8, elems: seq<Tag>,
                       rest: Bytes, parent: Value)
    requires ValidOrder(ord)
    requires ty <= IdIntArray
    requires forall i | 0 <= i < |elems| :: elems[i].value < parent
    requires forall i | 0 <= i < |elems| ::
               && elems[i].name == []
               && elems[i].value.Id() == ty
               && WellFormedValue(b, elems[i].value)
    ensures ReadListElems(b, o, ty, |elems|, WriteListElems(b, o, ord, ty, elems, parent) + rest)
            == Ok((elems, rest))
    decreases parent, 1, |elems|
  {
    if elems == [] {
      assert WriteListElems(b, o, ord, ty, elems, parent) + rest == rest;
    } else {
      var tail := WriteListElems(b, o, ord, ty, elems[1..], parent) + rest;
      PayloadRoundTrip(b, o, ord, elems[0].value, tail);
      ElemsRoundTrip(b, o, ord, ty, elems[1..], rest, parent);
      ElemsStep(b, o, ord, ty, elems, rest, parent);
    }
  }

  lemma {:induction false} EntriesRoundTrip(b: Behaviour, o: ByteOrder, ord: KeyOrder, keys: seq<Bytes>,
                         m: map<Bytes, Tag>, acc: map<Bytes, Tag>, rest: Bytes, parent: Value)
    requires ValidOrder(ord)
    requires parent == Compound(m) && WellFormedValue(b, parent)
    requires forall k | k in keys :: k in m
    ensures ReadEntries(b, o, WriteEntries(b, o, ord, keys, m, parent) + [IdEnd] + rest, acc)
            == Ok((Store(acc, keys, m), rest))
    decreases parent, 1, |keys|
  {
    if keys == [] {
      EntriesEndStep(b, o, ord, m, acc, rest);
    } else {
      var k := keys[0];
      assert m[k] in m.Values;
      var tail := WriteEntries(b, o, ord, keys[1..], m, parent) + [IdEnd] + rest;
      TagRoundTrip(b, o, ord, m[k], tail);
      EntriesRoundTrip(b, o, ord, keys[1..], m, acc[k := m[k]], rest, parent);
      EntriesStep(b, o, ord, keys, m, acc, rest);
    }
  }
}
