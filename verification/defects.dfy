/** The places where the Go code does not do what its framing promises,
    each stated for the code as written and, beside it, for the corrected
    behaviour (README, Findings), together with the quirks of
    `List.Read` and `List.Write`. */
module Defects {
  import opened Ints
  import opened Results
  import opened Cursor
  import opened Binary
  import opened Tags
  import opened Codec
  import RoundTrip

  // ------------------------------------------------ Int.Read and Long.Read

  /** As written, `Int.Read` and `Long.Read` drop the cursor's error: on a
      short input they succeed with zero and consume nothing. */
  lemma TruncatedIntegerReadsAsZero(o: ByteOrder, s: Bytes)
    ensures |s| < 4 ==> ReadInteger(AsWritten, o, IdInt, s) == Ok((Int(0), s))
    ensures |s| < 8 ==> ReadInteger(AsWritten, o, IdLong, s) == Ok((Long(0), s))
  {
  }

  /** The same discarded error, seen from a framed tag: an Int tag whose
      payload is missing reads as a tag holding zero. */
  lemma TruncatedIntTagReadsAsZero()
    ensures ReadTag(AsWritten, BigEndian, [IdInt, 0, 0]) == Ok((Tag([], Int(0)), []))
    ensures ReadTag(Intended, BigEndian, [IdInt, 0, 0]) == Err(Truncated)
  {
    var s: Bytes := [IdInt, 0, 0];
    assert s[1..] == [0, 0];
    SmallBigEndian(0);
    assert ReadString(AsWritten, BigEndian, [0, 0]) == Ok(([], []));
    assert ReadString(Intended, BigEndian, [0, 0]) == Ok(([], []));
    TruncatedIntegerReadsAsZero(BigEndian, []);
    assert ReadPayload(AsWritten, BigEndian, IdInt, []) == Ok((Int(0), []));
    assert ReadPayload(Intended, BigEndian, IdInt, []) == Err(Truncated);
    ReadTagFailure(Intended, BigEndian, s);
  }

  /** Corrected: every integer payload read succeeds exactly when the
      kind's width is available, and then consumes exactly that width. */
  lemma IntegerReadNeedsItsBytes(o: ByteOrder, id: uint8, s: Bytes)
    requires IdByte <= id <= IdLong
    ensures var n := if id == IdByte then 1 else if id == IdShort then 2 else if id == IdInt then 4 else 8;
            && (ReadInteger(Intended, o, id, s).Ok? <==> |s| >= n)
            && (ReadInteger(Intended, o, id, s).Ok? ==> ReadInteger(Intended, o, id, s).value.1 == s[n..])
  {
  }

  // ---------------------------------------------------- ByteArray.Write

  /** As written, `ByteArray.Write` emits no length, so no byte array, empty
      or not, is read back from what was written for it: the reader takes
      four of its bytes for the count. */
  lemma ByteArrayNeverRoundTrips(o: ByteOrder, ord: KeyOrder, bytes: Bytes, rest: Bytes)
    ensures ReadPayload(AsWritten, o, IdByteArray, WritePayload(AsWritten, o, ord, ByteArray(bytes)) + rest)
            != Ok((ByteArray(bytes), rest))
  {
    var s := bytes + rest;
    assert WritePayload(AsWritten, o, ord, ByteArray(bytes)) + rest == s;
    var r := ReadByteArray(AsWritten, o, s);
    if r.Ok? {
      var (count, after) := ReadSigned(o, W32, s).value;
      assert after == s[4..];
      var (got, left) := Get(count, after).value;
      assert got + left == after;
      assert r == Ok((ByteArray(got), left));
      assert |got| + |left| == |bytes| + |rest| - 4;
    }
  }

  /** The smallest witness: four zero bytes are read back as an empty
      array. */
  lemma ZeroBytesReadBackEmpty(o: ByteOrder, ord: KeyOrder)
    ensures WritePayload(AsWritten, o, ord, ByteArray([0, 0, 0, 0])) == [0, 0, 0, 0]
    ensures ReadPayload(AsWritten, o, IdByteArray, [0, 0, 0, 0]) == Ok((ByteArray([]), []))
  {
    var s: Bytes := [0, 0, 0, 0];
    ByteArrayDispatch(AsWritten, o, s);
    ZeroCount(o);
    SignedRoundTrip(o, W32, 0, []);
    assert s + [] == s;
  }

  lemma ByteArrayDispatch(b: Behaviour, o: ByteOrder, s: Bytes)
    ensures ReadPayload(b, o, IdByteArray, s) == ReadByteArray(b, o, s)
  {
  }

  /** The count 0 in either order. */
  lemma ZeroCount(o: ByteOrder)
    ensures WriteSigned(o, W32, 0) == [0, 0, 0, 0]
  {
    assert LittleEndianDigits(0, 1) == [0];
    assert LittleEndianDigits(0, 2) == [0, 0];
    assert LittleEndianDigits(0, 3) == [0, 0, 0];
    assert LittleEndianDigits(0, 4) == [0, 0, 0, 0];
    ReverseIndex([0, 0, 0, 0]);
  }

  /** As written, `ByteArray.Read` hands its count to `Get` unchecked: a
      count beyond the input reads as an empty byte array and leaves the
      input after the count, and a negative count panics. */
  lemma UncheckedByteArrayCount(o: ByteOrder, n: int32, rest: Bytes)
    ensures n > |rest| ==> ReadByteArray(AsWritten, o, WriteSigned(o, W32, n) + rest) == Ok((ByteArray([]), rest))
    ensures n < 0 ==> ReadByteArray(AsWritten, o, WriteSigned(o, W32, n) + rest) == Err(Panic)
  {
    SignedRoundTrip(o, W32, n, rest);
  }

  /** The smallest witness: a count of 5 before a single byte. */
  lemma OverlongByteArrayReadsEmpty()
    ensures ReadByteArray(AsWritten, BigEndian, [0, 0, 0, 5, 0x61]) == Ok((ByteArray([]), [0x61]))
    ensures ReadByteArray(Intended, BigEndian, [0, 0, 0, 5, 0x61]) == Err(Truncated)
  {
    SmallBigEndian(5);
    assert [0, 0, 0, 5] + [0x61] == [0, 0, 0, 5, 0x61];
    UncheckedByteArrayCount(BigEndian, 5, [0x61]);
    SignedRoundTrip(BigEndian, W32, 5, [0x61]);
  }

  /** Corrected: a negative count is an invalid length, a count beyond the
      input is truncated, and any other count takes exactly that many bytes. */
  lemma ByteArrayCountChecked(o: ByteOrder, n: int32, rest: Bytes)
    ensures n < 0 ==> ReadByteArray(Intended, o, WriteSigned(o, W32, n) + rest) == Err(InvalidLength)
    ensures n > |rest| ==> ReadByteArray(Intended, o, WriteSigned(o, W32, n) + rest) == Err(Truncated)
    ensures 0 <= n <= |rest| ==>
              ReadByteArray(Intended, o, WriteSigned(o, W32, n) + rest) == Ok((ByteArray(rest[..n]), rest[n..]))
  {
    SignedRoundTrip(o, W32, n, rest);
  }

  // ------------------------------------------------------ IntArray.Read

  /** As written, `IntArray.Read` stores into a nil slice: the output the
      writer produces for any non-empty int array makes the reader panic. */
  lemma IntArrayReadPanics(o: ByteOrder, ord: KeyOrder, xs: seq<int32>, rest: Bytes)
    requires 0 < |xs| < 0x8000_0000
    ensures ReadPayload(AsWritten, o, IdIntArray, WritePayload(AsWritten, o, ord, IntArray(xs)) + rest)
            == Err(Panic)
  {
    var t := WriteInts(o, xs) + rest;
    var s := WriteSigned(o, W32, |xs|) + t;
    assert WritePayload(AsWritten, o, ord, IntArray(xs)) + rest == s;
    SignedRoundTrip(o, W32, |xs|, t);
    assert ReadSigned(o, W32, t).Ok?;
    RoundTrip.ReadIntArrayDispatch(AsWritten, o, s);
    assert ReadIntArray(AsWritten, o, s) == Err(Panic);
  }

  /** As written, a negative IntArray count skips the loop: the header
      alone reads as an empty int array. */
  lemma NegativeIntArrayCountReadsEmpty(o: ByteOrder, n: int32, rest: Bytes)
    requires n < 0
    ensures ReadIntArray(AsWritten, o, WriteSigned(o, W32, n) + rest) == Ok((IntArray([]), rest))
  {
    SignedRoundTrip(o, W32, n, rest);
  }

  /** Corrected: a negative IntArray count is an invalid length. */
  lemma NegativeIntArrayCountRejected(o: ByteOrder, n: int32, rest: Bytes)
    requires n < 0
    ensures ReadIntArray(Intended, o, WriteSigned(o, W32, n) + rest) == Err(InvalidLength)
  {
    SignedRoundTrip(o, W32, n, rest);
  }

  // --------------------------------------------------------- List.Read

  lemma ListHeader(o: ByteOrder, ty: uint8, n: int32, rest: Bytes)
    ensures ReadByte([ty] + (WriteSigned(o, W32, n) + rest)) == Ok((ty, WriteSigned(o, W32, n) + rest))
    ensures ReadSigned(o, W32, WriteSigned(o, W32, n) + rest) == Ok((n, rest))
  {
    SignedRoundTrip(o, W32, n, rest);
  }

  /** As written, a negative count reaches `make` and panics. */
  lemma NegativeListCountPanics(o: ByteOrder, ty: uint8, n: int32, rest: Bytes)
    requires n < 0
    ensures ReadList(AsWritten, o, [ty] + (WriteSigned(o, W32, n) + rest)) == Err(Panic)
  {
    ListHeader(o, ty, n, rest);
  }

  /** Corrected: a negative count is reported as an invalid length. */
  lemma NegativeListCountRejected(o: ByteOrder, ty: uint8, n: int32, rest: Bytes)
    requires n < 0
    ensures ReadList(Intended, o, [ty] + (WriteSigned(o, W32, n) + rest)) == Err(InvalidLength)
  {
    ListHeader(o, ty, n, rest);
  }

  /** An element kind that names no kind is refused only when there is an
      element to build; an empty list of it reads fine. */
  lemma UnknownListTypeFailsOnlyWhenNonEmpty(b: Behaviour, o: ByteOrder, ty: uint8, n: int32, rest: Bytes)
    requires ty > IdIntArray && n >= 0
    ensures ReadList(b, o, [ty] + (WriteSigned(o, W32, n) + rest))
            == if n == 0 then Ok((List(ty, []), rest)) else Err(InvalidListType(ty))
  {
    ListHeader(o, ty, n, rest);
  }

  /** Whatever makes an element read fail, other than a panic, the list
      reports the same generic error. */
  lemma ElementFailureIsNotEnough(b: Behaviour, o: ByteOrder, ty: uint8, n: nat, s: Bytes)
    requires ty <= IdIntArray && n > 0
    requires ReadPayload(b, o, ty, s).Err?
    ensures ReadListElems(b, o, ty, n, s)
            == Err(if ReadPayload(b, o, ty, s).error == Panic then Panic else NotEnough)
  {
  }

  // -------------------------------------------------------- List.Write

  /** The elements of the declared kind, in order: a tag is kept exactly
      when it is an element of that kind, and the order of the list is kept
      (`MatchingAppend`). */
  function Matching(ty: uint8, elems: seq<Tag>): (r: seq<Tag>)
    ensures |r| <= |elems|
    ensures forall t :: t in r <==> t in elems && t.value.Id() == ty
    ensures (forall i | 0 <= i < |elems| :: elems[i].value.Id() == ty) ==> r == elems
  {
    if elems == [] then []
    else
      var tail := Matching(ty, elems[1..]);
      assert forall t :: t in elems <==> t == elems[0] || t in elems[1..];
      if elems[0].value.Id() == ty then [elems[0]] + tail else tail
  }

  /** Filtering a list cut in two filters each part and keeps them in
      order. */
  lemma {:induction false} MatchingAppend(ty: uint8, a: seq<Tag>, c: seq<Tag>)
    ensures Matching(ty, a + c) == Matching(ty, a) + Matching(ty, c)
    decreases |a|
  {
    if a == [] {
      assert a + c == c;
    } else {
      var a1 := a[1..];
      assert a == [a[0]] + a1;
      assert a + c == [a[0]] + (a1 + c);
      MatchingAppend(ty, a1, c);
      MatchingCons(ty, a[0], a1 + c);
      MatchingCons(ty, a[0], a1);
      Regroup(if a[0].value.Id() == ty then [a[0]] else [], Matching(ty, a1), Matching(ty, c));
    }
  }

  lemma MatchingCons(ty: uint8, x: Tag, s: seq<Tag>)
    ensures Matching(ty, [x] + s) == (if x.value.Id() == ty then [x] else []) + Matching(ty, s)
  {
    assert ([x] + s)[1..] == s;
  }

  lemma Regroup(h: seq<Tag>, p: seq<Tag>, q: seq<Tag>)
    ensures h + (p + q) == (h + p) + q
  {
  }

  /** `List.Write` writes the payloads of the matching elements only, while
      its header still counts every element. */
  lemma {:induction false} ListWriteSkipsMismatched(b: Behaviour, o: ByteOrder, ord: KeyOrder, ty: uint8,
                                                    elems: seq<Tag>, parent: Value)
    requires forall i | 0 <= i < |elems| :: elems[i].value < parent
    ensures forall i | 0 <= i < |Matching(ty, elems)| :: Matching(ty, elems)[i].value < parent
    ensures WriteListElems(b, o, ord, ty, elems, parent)
            == WriteListElems(b, o, ord, ty, Matching(ty, elems), parent)
    ensures parent == List(ty, elems) ==>
              WritePayload(b, o, ord, parent)
              == [ty] + WriteSigned(o, W32, |elems|) + WriteListElems(b, o, ord, ty, Matching(ty, elems), parent)
  {
    if elems != [] {
      ListWriteSkipsMismatched(b, o, ord, ty, elems[1..], parent);
      var m := Matching(ty, elems);
      if elems[0].value.Id() == ty {
        assert m[1..] == Matching(ty, elems[1..]);
      }
    }
  }

  /** The smallest witness, written: a Byte list holding a Short gets a
      count of one and no element. */
  lemma MismatchedListWritesNoElement(b: Behaviour, ord: KeyOrder)
    ensures WritePayload(b, BigEndian, ord, List(IdByte, [Tag([], Short(1))])) == [IdByte, 0, 0, 0, 1]
  {
    var v := List(IdByte, [Tag([], Short(1))]);
    ShortSkipped(b, ord, v);
    RoundTrip.WriteListLayout(b, BigEndian, ord, v, []);
    SmallBigEndian(1);
    CountThenNothing(WriteSigned(BigEndian, W32, 1), WriteListElems(b, BigEndian, ord, IdByte, v.elems, v));
  }

  lemma CountThenNothing(count: Bytes, elems: Bytes)
    requires count == [0, 0, 0, 1] && elems == []
    ensures [IdByte] + (count + (elems + [])) == [IdByte, 0, 0, 0, 1]
  {
  }

  lemma ShortSkipped(b: Behaviour, ord: KeyOrder, v: Value)
    requires v == List(IdByte, [Tag([], Short(1))])
    ensures WriteListElems(b, BigEndian, ord, IdByte, v.elems, v) == []
  {
    assert v.elems[1..] == [];
  }

  /** The smallest witness, read back: the count promises an element that
      is not there. */
  lemma MismatchedListDoesNotReadBack(b: Behaviour)
    ensures ReadList(b, BigEndian, [IdByte, 0, 0, 0, 1]) == Err(NotEnough)
  {
    SmallBigEndian(1);
    ListHeader(BigEndian, IdByte, 1, []);
    assert [IdByte] + ([0, 0, 0, 1] + []) == [IdByte, 0, 0, 0, 1];
    assert ReadPayload(b, BigEndian, IdByte, []) == Err(Truncated);
  }

  // --------------------------------------------------------- readString

  /** As written, a declared length beyond the input yields an empty string
      and a successful read (under the cursor assumption on short spans). */
  lemma OverlongStringReadsEmpty()
    ensures ReadString(AsWritten, BigEndian, [0, 5, 0x61]) == Ok(([], [0x61]))
  {
    var s: Bytes := [0, 5, 0x61];
    assert s[..2] == [0, 5];
    SmallBigEndian(5);
    assert DeclaredLength(BigEndian, s) == 5;
    assert s[2..] == [0x61];
  }

  /** Corrected: a successful string read returns exactly the declared
      number of bytes, taken right after the prefix. */
  lemma StringReadTakesDeclaredLength(o: ByteOrder, s: Bytes)
    requires ReadString(Intended, o, s).Ok?
    ensures |s| >= 2
    ensures |ReadString(Intended, o, s).value.0| == DeclaredLength(o, s)
    ensures ReadString(Intended, o, s).value.0 + ReadString(Intended, o, s).value.1 == s[2..]
  {
    var d := DeclaredLength(o, s);
    assert s[2..2 + d] + s[2 + d..] == s[2..];
  }
}
