/** The compression envelope (compress.go): sniffing the gzip and zlib
    magics, the choice of decompressor in `FromReader`, and the type switch
    of `Compress`. The gzip and zlib codecs themselves are library code; they
    are parameters here, as functions that return the converted bytes or an
    error. */
module Envelope {
  import opened Ints
  import opened Results
  import opened Cursor

  /** ID1, ID2 and CM = deflate of a gzip member (section 2.3.1 of RFC 1952). */
  const GzipMagic: Bytes := [0x1f, 0x8b, 0x08]

  /** CMF with CM = deflate and a 32K window (section 2.2 of RFC 1950). */
  const ZlibMagic: Bytes := [0x78]

  /** `bytes.HasPrefix`. */
  predicate HasPrefix(b: Bytes, p: Bytes) {
    |p| <= |b| && b[..|p|] == p
  }

  /** `hasGZipHeader`. */
  function HasGzipHeader(b: Bytes): (r: bool)
    ensures r <==> |b| >= 3 && b[0] == 0x1f && b[1] == 0x8b && b[2] == 0x08
  {
    var r := HasPrefix(b, GzipMagic);
    assert r ==> b[0] == b[..3][0] && b[1] == b[..3][1] && b[2] == b[..3][2];
    r
  }

  /** `hasZlibHeader`. */
  function HasZlibHeader(b: Bytes): (r: bool)
    ensures r <==> |b| >= 1 && b[0] == 0x78
  {
    var r := HasPrefix(b, ZlibMagic);
    assert r ==> b[0] == b[..1][0];
    r
  }

  /** The two magics exclude each other, so the order in which
      `FromReader` tests them never decides anything. */
  lemma MagicsDisjoint(b: Bytes)
    ensures !(HasGzipHeader(b) && HasZlibHeader(b))
  {
  }

  /** What `FromReader` decides a buffer holds. */
  datatype Envelope = Gzip | Zlib | Plain

  /** The branch `FromReader` takes: the gzip magic is checked first, then the zlib one. */
  function Sniff(b: Bytes): (r: Envelope)
    ensures r == Gzip <==> HasGzipHeader(b)
    ensures r == Zlib <==> HasZlibHeader(b)
    ensures r == Plain <==> !HasGzipHeader(b) && !HasZlibHeader(b)
  {
    if HasGzipHeader(b) then Gzip
    else if HasZlibHeader(b) then Zlib
    else Plain
  }

  /** A buffer shorter than a magic never carries it: the empty buffer and
      the two-byte prefix of the gzip magic are taken as uncompressed. */
  lemma ShortBuffersArePlain(b: Bytes)
    ensures |b| < 3 ==> !HasGzipHeader(b)
    ensures b == [] ==> Sniff(b) == Plain
    ensures b == [0x1f, 0x8b] ==> Sniff(b) == Plain
  {
  }

  /** The bytes `FromReader` hands to the tag stream: the decompressed
      buffer when a magic is present, the buffer itself otherwise. A failing
      decompressor's error is returned and no stream is made. */
  function FromBytes(b: Bytes, gunzip: Bytes -> Result<Bytes>, inflate: Bytes -> Result<Bytes>)
    : (r: Result<Bytes>)
    ensures Sniff(b) == Plain ==> r == Ok(b)
    ensures Sniff(b) == Gzip ==> r == gunzip(b)
    ensures Sniff(b) == Zlib ==> r == inflate(b)
  {
    match Sniff(b)
    case Gzip => gunzip(b)
    case Zlib => inflate(b)
    case Plain => Ok(b)
  }

  /** `CompressGZip` and `CompressZlib`, Go `iota` constants. */
  const CompressGzip: int := 0
  const CompressZlib: int := 1

  /** `Compress`: the stream's bytes through the codec the type names. Any
      other type falls through the switch and yields empty bytes and no
      error. */
  function Compress(typ: int, level: int, data: Bytes,
                    gzip: (int, Bytes) -> Result<Bytes>, zlib: (int, Bytes) -> Result<Bytes>)
    : (r: Result<Bytes>)
    ensures typ != CompressGzip && typ != CompressZlib ==> r == Ok([])
    ensures typ == CompressGzip ==> r == gzip(level, data)
    ensures typ == CompressZlib ==> r == zlib(level, data)
  {
    if typ == CompressGzip then gzip(level, data)
    else if typ == CompressZlib then zlib(level, data)
    else Ok([])
  }

  /** Compressed output comes back through the matching decompressor: when
      the codec emits its own magic and its decompressor inverts it, reading
      what `Compress` produced yields the original bytes. */
  lemma CompressThenRead(typ: int, level: int, data: Bytes,
                         gzip: (int, Bytes) -> Result<Bytes>, zlib: (int, Bytes) -> Result<Bytes>,
                         gunzip: Bytes -> Result<Bytes>, inflate: Bytes -> Result<Bytes>, c: Bytes)
    requires typ == CompressGzip || typ == CompressZlib
    requires Compress(typ, level, data, gzip, zlib) == Ok(c)
    requires typ == CompressGzip ==> HasGzipHeader(c) && gunzip(c) == Ok(data)
    requires typ == CompressZlib ==> HasZlibHeader(c) && inflate(c) == Ok(data)
    ensures FromBytes(c, gunzip, inflate) == Ok(data)
  {
    MagicsDisjoint(c);
  }

  /** An unknown compression type gives nothing to read back: its output is
      the empty, hence uncompressed, buffer. */
  lemma UnknownTypeReadsEmpty(typ: int, level: int, data: Bytes,
                              gzip: (int, Bytes) -> Result<Bytes>, zlib: (int, Bytes) -> Result<Bytes>,
                              gunzip: Bytes -> Result<Bytes>, inflate: Bytes -> Result<Bytes>)
    requires typ != CompressGzip && typ != CompressZlib
    ensures FromBytes(Compress(typ, level, data, gzip, zlib).value, gunzip, inflate) == Ok([])
  {
  }
}
