/** The string framing shared by tag names and String payloads (binary.go):
    an unsigned 16-bit byte count in the stream's byte order, then the raw
    bytes, passed through without any UTF-8 check. */
module Binary {
  import opened Ints
  import opened Results
  import opened Cursor

  /** Which behaviour a decoder or encoder follows: the Go code as written,
      or the code with the defects listed in the README corrected. */
  datatype Behaviour = AsWritten | Intended

  /** The byte count `readString` reads first: the first two bytes of s. */
  function DeclaredLength(o: ByteOrder, s: Bytes): nat
    requires |s| >= 2
  {
    Decode(o, s[..2])
  }

  /** `readString`: a u16 byte count, then that many bytes. As written, the
      span read is not checked, so a count larger than what remains yields
      the empty string and consumes only the prefix. */
  function ReadString(b: Behaviour, o: ByteOrder, s: Bytes): (r: Result<(Bytes, Bytes)>)
    ensures |s| < 2 ==> r == Err(Truncated)
    ensures |s| >= 2 && DeclaredLength(o, s) <= |s| - 2 ==>
              r == Ok((s[2..2 + DeclaredLength(o, s)], s[2 + DeclaredLength(o, s)..]))
    ensures |s| >= 2 && DeclaredLength(o, s) > |s| - 2 ==>
              r == (if b == AsWritten then Ok(([], s[2..])) else Err(Truncated))
    ensures r.Ok? ==> |r.value.1| <= |s| - 2
  {
    var (ln, rest) :- ReadUnsigned(o, 2, s);
    assert ln == DeclaredLength(o, s) && rest == s[2..];
    if b == Intended && ln > |rest| then Err(Truncated)
    else
      assert ln <= |rest| ==> rest[..ln] == s[2..2 + ln] && rest[ln..] == s[2 + ln..];
      assert ln > |rest| ==> b == AsWritten && Get(ln, rest) == Ok(([], s[2..]));
      Get(ln, rest)
  }

  /** `writeString`: the byte count, truncated to 16 bits, then every byte. */
  function WriteString(o: ByteOrder, str: Bytes): (r: Bytes)
    ensures |r| == 2 + |str|
    ensures r[2..] == str
  {
    Encode(o, 2, ToUnsigned(|str|, W16)) + str
  }

  /** Reading back a written string returns it and consumes exactly its
      framing, for every byte string shorter than 65536 bytes. */
  lemma StringRoundTrip(b: Behaviour, o: ByteOrder, str: Bytes, rest: Bytes)
    requires |str| < 0x1_0000
    ensures ReadString(b, o, WriteString(o, str) + rest) == Ok((str, rest))
  {
    var s := WriteString(o, str) + rest;
    assert s[..2] == Encode(o, 2, |str|);
    DecodeEncode(o, 2, |str|);
    assert s[2..2 + |str|] == str;
    assert s[2 + |str|..] == rest;
  }

  /** A string of 65536 bytes or more is written in full behind a prefix
      that wrapped modulo 2^16, so reading it back yields a shorter string. */
  lemma LongStringDoesNotRoundTrip(b: Behaviour, o: ByteOrder, str: Bytes)
    requires |str| >= 0x1_0000
    ensures |WriteString(o, str)| == 2 + |str|
    ensures DeclaredLength(o, WriteString(o, str)) == |str| % 0x1_0000
    ensures ReadString(b, o, WriteString(o, str)) != Ok((str, []))
  {
    var s := WriteString(o, str);
    assert s[..2] == Encode(o, 2, |str| % 0x1_0000);
    DecodeEncode(o, 2, |str| % 0x1_0000);
    var r := ReadString(b, o, s);
    assert r.Ok? ==> |r.value.0| == |str| % 0x1_0000;
  }
}
