# NBT tag trees in Dafny

A model of the core of the Go package `nbt` (beito123/nbt). It covers the
encoder and decoder of Minecraft's Named Binary Tag format.

An NBT stream is a single framed tag:

- one id byte naming one of twelve kinds;
- for every kind but End, a name with a 16-bit length prefix;
- the kind's payload.

A Compound payload is a run of framed tags closed by an End id. A List
payload is an element kind, a signed 32-bit count, then that many anonymous
payloads. The package also sniffs gzip and zlib magics on input, compresses
output, and offers accessors and type coercions on the decoded tree.

Modules, one per concern of the package:

| file | module | models |
|---|---|---|
| results.dfy | `Results` | the error kinds, `Option`, and a `Result` with `:-` propagation |
| ints.dfy | `Ints` | Go's fixed-width integers and the conversions between them (two's complement, wrap-around) |
| cursor.dfy | `Cursor` | the byte stream: big- and little-endian fixed-width integers and raw spans over an immutable byte sequence |
| binary.dfy | `Binary` | `readString` / `writeString`, and the `Behaviour` switch |
| tag.dfy | `Tags` | the kind ids, the tag tree, `getTagByID`, `GetTagName` |
| codec.dfy | `Codec` | `Stream.ReadTag`, `Stream.WriteTag`, and every kind's `Read` / `Write` as mutually recursive pure functions |
| roundtrip.dfy | `RoundTrip` | the round trip of every tree the code can reproduce |
| frames.dfy | `Frames` | what `Compound.Read` makes of any run of framed tags, duplicate names included |
| defects.dfy | `Defects` | the places where the code as written loses or corrupts data, each next to its correction |
| compound.dfy | `Compounds` | `Compound.Get` / `Set` / `Has` and the typed `GetX` accessors |
| coerce.dfy | `Coercions` | the integer, bool, byte-array and int-array `ToX` methods of every kind |
| envelope.dfy | `Envelope` | `hasGZipHeader`, `hasZlibHeader`, the branch `FromReader` takes, and `Compress` |
| sample.dfy | `Sample` | a small root compound `{"a": Int 5, "b": String "x"}` and its 19 bytes |

Modelling choices:

- **Readers** take the remaining input and return the value together with
  the bytes left after it, or an error. **Writers** return the bytes they
  emit. Writing to Go's in-memory buffer never fails, so writers are total.
- **Behaviour.** Every reader and writer takes a `Behaviour`:
  - `AsWritten` follows the Go code, defects included (see Findings);
  - `Intended` is the corrected code the Findings rows propose.

  The two agree everywhere except at the rows of "## Findings".
- **Key order.** `Compound.Write` ranges over a Go map, whose iteration
  order Go leaves unspecified. The writers therefore take a `KeyOrder`, a
  function from a map to the sequence of its keys. The round trips hold for
  every such function that lists each key once (`ValidOrder`). Being a
  function of the map, it writes two equal maps of one tree in the same
  order, which Go does not promise (see "## Left out").
- **The cursor library** (`github.com/beito123/binary`) is not part of this
  model. Its behaviour is fixed as an explicit assumption:
  - a fixed-width read with too few bytes left fails with `Truncated` and
    consumes nothing;
  - such a failed read returns the value 0 alongside its error. This is the
    0 that `Int.Read` and `Long.Read` keep when they drop the error, and the
    count that `ByteArray.Read` passes to `Get` before it returns the error;
  - a raw span read `Get(n)` with `n` past the end returns nothing and
    leaves the input as it was;
  - `Get` with a negative `n` panics, as Go's slice expression does.
- **Floats.** Float and Double keep their IEEE-754 bit patterns as opaque
  words. Reading and writing them moves those bits unchanged.
- **Text.** Names and strings are byte sequences. The code neither validates
  UTF-8 nor normalises, so neither does the model.
- **Where the code departs from the NBT format, the model follows the code:**
  - A negative List count reaches `make` and panics (tag.go:1318). A count
    is never negative in the format, and the `Intended` behaviour reports it
    as `InvalidLength`.
  - `ByteArray.Write` emits the bytes with no length prefix (tag.go:1046),
    although the format and the reader expect a signed 32-bit count.
  - A List whose element kind names no kind is accepted when its count is
    zero, because the kind is only checked inside the element loop
    (tag.go:1320-1324).
  - `Compound.Read` keeps the last of several entries with the same name
    (tag.go:1503).

## Model

| member | source | states |
|---|---|---|
| Tags.TagById | tag.go:20-49 | exactly the twelve ids 0..11 give a tag; that tag has the requested id and is the kind's zero value |
| Tags.TagByIdInvertsId | tag.go:20-49 | dispatching on a value's own id yields its kind again, and yields the value itself when it is zero |
| Tags.KindName | tag.go:52-81 | "Unknown" is returned exactly for the ids outside the twelve kinds |
| Tags.KindNamesDistinct | tag.go:52-81 | two different kinds never share a display name |
| Tags.Value.Id | tag.go:162-1788 | every kind's `ID()` is one of the twelve ids, and it is the End, List or Compound id exactly for a value of that kind |
| Ints.ToSigned | tag.go:315-372 | Go's conversion to a signed width gives a value in that width's range and leaves a value already in range unchanged |
| Ints.ToUnsigned | tag.go:315-372 | Go's conversion to an unsigned width gives a value below 2^bits and leaves a value already in range unchanged |
| Ints.ToUnsignedCongruent | tag.go:315-372 | Go's unsigned conversion of any value, in range or not, differs from it by a multiple of 2^bits |
| Ints.ToSignedKeepsBits | tag.go:315-372 | the signed conversion keeps exactly the low bits of its input |
| Ints.SignedUnsignedInverse | tag.go:315-372 | reinterpreting a value as unsigned and back as signed at the same width is the identity on that width's range |
| Ints.WideningPreservesValue | tag.go:315-372 | converting a value to a width at least as wide keeps it when the target is signed, and adds 2^bits to a negative value when the target is unsigned |
| Ints.NarrowingKeepsLowBits | tag.go:315-372 | converting first to a wider width and then to a narrower one gives the same result as converting directly to the narrower one |
| Cursor.ByteOrdersMirror | nbt.go:68-74 | the big-endian bytes of a value are its little-endian bytes reversed |
| Cursor.DecodeEncode | nbt.go:68-74 | decoding the n-byte encoding of a value below 256^n returns the value, in either byte order |
| Cursor.EncodeDecode | nbt.go:68-74 | every byte sequence is the encoding of what it decodes to, so decoding loses nothing |
| Cursor.ReadSigned | tag.go:421-426 | a signed read succeeds exactly when the width's bytes remain, returns a value in the width's range and consumes exactly those bytes |
| Cursor.SignedRoundTrip | tag.go:421-431 | a signed value written at its width reads back unchanged and leaves what followed it |
| Cursor.UnsignedRoundTrip | tag.go:790-799 | an unsigned word written in n bytes reads back unchanged and leaves what followed it |
| Cursor.Get | tag.go:1036-1042 | a span read panics exactly on a negative count; otherwise span and remainder partition the input, and the span has the count's length when it fits and is empty when it does not |
| Binary.ReadString | binary.go:16-23 | fails with Truncated when the length prefix is missing; returns the declared span when it fits; when it does not, returns an empty string and drops only the prefix (as written) or fails (intended) |
| Binary.WriteString | binary.go:25-34 | emits a two-byte prefix followed by every byte of the string, so the output is two bytes longer |
| Binary.StringRoundTrip | binary.go:16-34 | a string shorter than 65536 bytes written and read back returns the string and exactly the bytes after it |
| Binary.LongStringDoesNotRoundTrip | binary.go:25-34 | a string of 65536 bytes or more gets a prefix holding its length modulo 65536 and never reads back as itself |
| Codec.ReadTag | nbt.go:104-136 | empty input is Truncated; an id above 11 is an invalid tag; the End id yields an unnamed End tag after one byte; a decoded tag has the id it was framed with and consumes at least one byte |
| Codec.ReadTagFailure | nbt.go:123-133 | a framed tag whose name cannot be read fails with the name reader's error, and one whose payload cannot be read fails with the payload reader's error; no partial tag is returned |
| Codec.ReadPayload | nbt.go:114-130 | a payload read yields a value of the kind it was asked for, never consuming more than the input |
| Codec.ReadLeaf | tag.go:1169-1173 | a payload read of a kind that holds no tags, String included, yields a value of that kind without growing the input |
| Codec.ReadInteger | tag.go:544-548 | Byte, Short, Int and Long payload reads yield a value of the requested kind without growing the input |
| Codec.ReadFloating | tag.go:790-795 | Float and Double reads yield a value of the requested kind without growing the input |
| Codec.ReadList | tag.go:1307-1335 | a successful List read yields a List and consumes at least its header byte |
| Codec.ReadListElems | tag.go:1320-1332 | a successful element loop yields exactly the declared number of elements; every failure is reported as NotEnough unless it is a panic |
| Codec.ListElemsAreAnonymous | tag.go:1320-1332 | every element a List read produces has an empty name and the declared kind |
| Codec.ReadCompound | tag.go:1490-1507 | a successful Compound read yields a Compound and consumes at least the End byte |
| Codec.ReadEntries | tag.go:1493-1504 | the entry loop only ever adds names to what it stores, always consumes bytes, and passes on unchanged the error of a framed read that fails at the start of its input |
| Codec.ReadByteArray | tag.go:1036-1042 | a successful ByteArray read yields a ByteArray without growing the input |
| Codec.ReadIntArray | tag.go:1801-1817 | a successful IntArray read yields an IntArray without growing the input |
| Codec.ReadInts | tag.go:1807-1814 | reading n ints succeeds exactly when 4n bytes remain, yields n ints and consumes exactly 4n bytes |
| Codec.WriteTag | nbt.go:139-151 | a framed tag is at least three bytes long and starts with its kind's id |
| Codec.WritePayload | tag.go:182-1834 | every kind's `Write`, with no contract of its own; what it writes for each kind is stated by `Codec.PayloadLayout` |
| Codec.PayloadLayout | tag.go:182-1834 | End writes nothing; Byte, Short, Int/Float and Long/Double take 1, 2, 4 and 8 bytes; a ByteArray ends with its bytes, behind a 4-byte count only when corrected; a String is its bytes behind 2 bytes; a List starts with its element kind and its 32-bit count; an IntArray starts with its count and takes 4 bytes per int; a Compound ends with the End id |
| Codec.WriteListElems | tag.go:1349-1358 | the element loop of `List.Write`, with no contract of its own; `Codec.ListElemsOfOtherKinds` and `Defects.ListWriteSkipsMismatched` state what it writes |
| Codec.ListElemsOfOtherKinds | tag.go:1349-1358 | a list none of whose elements has the declared kind writes no element bytes |
| Codec.WriteEntries | tag.go:1510-1520 | keys that name no stored tag write nothing; when the first key names a stored tag, the output is at least three bytes long and opens with that tag's kind id |
| Codec.WriteInts | tag.go:1826-1831 | n ints take exactly 4n bytes |
| RoundTrip.StoreAllKeys | tag.go:1503 | storing every key of a map into an empty map, in any order that lists each key once, rebuilds the map |
| RoundTrip.ReadIntsRoundTrip | tag.go:1801-1834 | a written run of ints reads back as the same sequence and leaves what followed it |
| RoundTrip.IntegerPayloadRoundTrip | tag.go:544-553 | Byte, Short, Int and Long payloads take 1, 2, 4 and 8 bytes and read back as the value written, under both behaviours |
| RoundTrip.FloatingPayloadRoundTrip | tag.go:790-799 | Float and Double bit patterns read back unchanged |
| RoundTrip.ByteArrayPayloadRoundTrip | tag.go:1036-1047 | with the corrected writer, a byte array below 2^31 bytes reads back unchanged and leaves what followed it |
| RoundTrip.IntArrayPayloadRoundTrip | tag.go:1801-1834 | an int array the behaviour can reproduce (empty as written, below 2^31 ints intended) reads back unchanged |
| RoundTrip.LeafPayloadRoundTrip | tag.go:1169-1178 | every reproducible payload of a kind without children, String included, reads back unchanged |
| RoundTrip.TagStep | nbt.go:104-151 | a framed tag reads back whole once its payload does: the id selects the kind, the name is restored, the rest is left |
| RoundTrip.TagRoundTrip | nbt.go:104-151 | every well-formed tree written under any valid key order reads back as the same tree, names included, and leaves what followed it |
| RoundTrip.PayloadRoundTrip | tag.go:1490-1520 | every well-formed value's payload, nested Lists and Compounds included, reads back as the same value |
| RoundTrip.ElemsRoundTrip | tag.go:1307-1361 | the elements of a list that are anonymous and of the declared kind read back in order, one per written payload |
| RoundTrip.EntriesRoundTrip | tag.go:1490-1520 | the entries written for the keys of a well-formed map read back into exactly those entries, stopping after the End byte |
| Frames.Names | tag.go:1503 | a name is in the set exactly when some tag of the run carries it |
| Frames.SetAllKeys | tag.go:1503 | storing a run of tags by name stores exactly the names already present and the names of the run |
| Frames.SetAllLastWins | tag.go:1503 | under each name of a run, the stored tag is the last tag of the run with that name |
| Frames.SetAllKeepsOthers | tag.go:1503 | a name that no tag of the run carries keeps what was stored under it |
| Frames.WellFormedIsReproduced | nbt.go:104-151 | every well-formed tag other than End reads back from its own framing, whatever follows it |
| Frames.ReadAllEntries | tag.go:1493-1504 | any run of reproducible framed tags closed by End is stored tag by tag, in stream order, and reading stops right after the End byte |
| Frames.ReadEntriesStopsAtFailure | tag.go:1493-1504 | after any run of reproducible framed tags, a framed read that fails makes the whole entry loop fail with that read's error; the entries read before it are not returned |
| Frames.ReadFramedCompound | tag.go:1490-1507 | a Compound payload made of such a run reads as the map of the run's tags |
| Frames.CompoundKeepsLastOfEachName | tag.go:1490-1507 | a Compound payload of well-formed framed tags reads back holding every name of the run, and under each name the last tag written with it |
| Sample.RootLayout | nbt.go:139-151 | the root {"a": Int 5, "b": String "x"}, written big-endian with "a" first, is the 19 bytes `0A 00 00 03 00 01 61 00 00 00 05 08 00 01 62 00 01 78 00` |
| Sample.EntriesStored | tag.go:1503 | storing the two entries of the sample in order gives the sample's map |
| Sample.RootRoundTrip | nbt.go:104-151 | the sample root written and read back is the same tree |
| Sample.RootReadsBack | nbt.go:104-136 | reading those 19 bytes gives the sample root, under either behaviour, and consumes them all |
| Defects.TruncatedIntegerReadsAsZero | tag.go:544-548 | as written, an Int payload with fewer than 4 bytes left, or a Long with fewer than 8, reads as zero and consumes nothing |
| Defects.TruncatedIntTagReadsAsZero | tag.go:544-548 | as written, the three bytes 03 00 00 decode to an unnamed Int tag holding 0; corrected, they are Truncated |
| Defects.IntegerReadNeedsItsBytes | tag.go:667-671 | corrected, an integer payload read succeeds exactly when its width's bytes remain and then consumes exactly that width |
| Defects.ByteArrayNeverRoundTrips | tag.go:1045-1047 | as written, no byte array, empty or not, reads back from what its writer emitted |
| Defects.ZeroBytesReadBackEmpty | tag.go:1036-1047 | as written, the byte array 00 00 00 00 is emitted as those four bytes, which read back as an empty byte array |
| Defects.UncheckedByteArrayCount | tag.go:1036-1042 | as written, a ByteArray count beyond the input reads as an empty byte array and leaves the input after the count, and a negative count panics |
| Defects.OverlongByteArrayReadsEmpty | tag.go:1036-1042 | the bytes `00 00 00 05 61` read as an empty byte array leaving `61` as written, and as Truncated when corrected |
| Defects.ByteArrayCountChecked | tag.go:1036-1042 | corrected, a negative count is InvalidLength, a count beyond the input is Truncated, and any other count takes exactly that many bytes and leaves the rest |
| Defects.IntArrayReadPanics | tag.go:1807-1813 | as written, reading back any non-empty int array panics on its first int |
| Defects.NegativeIntArrayCountReadsEmpty | tag.go:1801-1811 | as written, an IntArray header with a negative count reads as an empty int array and consumes only the count |
| Defects.NegativeIntArrayCountRejected | tag.go:1801-1811 | corrected, an IntArray header with a negative count fails with InvalidLength |
| Defects.NegativeListCountPanics | tag.go:1313-1318 | as written, a List header with a negative count panics |
| Defects.NegativeListCountRejected | tag.go:1313-1318 | corrected, a List header with a negative count fails with InvalidLength |
| Defects.UnknownListTypeFailsOnlyWhenNonEmpty | tag.go:1318-1324 | a List whose element kind is unknown reads as an empty list when its count is 0 and fails with an invalid-type error otherwise |
| Defects.ElementFailureIsNotEnough | tag.go:1326-1329 | any element read failure other than a panic becomes NotEnough |
| Defects.Matching | tag.go:1349-1352 | an element is selected exactly when it is in the list and has the declared kind; when every element has that kind, the whole list is selected |
| Defects.MatchingAppend | tag.go:1349-1352 | selecting from two runs in a row gives the selection from the first followed by the selection from the second, so the list's order is kept |
| Defects.ListWriteSkipsMismatched | tag.go:1338-1361 | the element loop writes exactly what it writes for the elements of the declared kind, and a List payload is its element kind, a count of all its elements, then those payloads only |
| Defects.MismatchedListWritesNoElement | tag.go:1338-1361 | a Byte list holding one Short is written as a count of 1 followed by no element |
| Defects.MismatchedListDoesNotReadBack | tag.go:1307-1335 | those bytes then fail to read with NotEnough, under either behaviour |
| Defects.OverlongStringReadsEmpty | binary.go:16-23 | as written, a length prefix of 5 before a single byte reads as the empty string and leaves that byte |
| Defects.StringReadTakesDeclaredLength | binary.go:16-23 | corrected, a successful string read returns exactly the declared number of bytes, which together with the rest are the input after the prefix |
| Compounds.Get | tag.go:1631-1634 | a tag is found exactly when the name is stored, and it is the stored tag |
| Compounds.Set | tag.go:1637-1639 | the new tag is stored under its own name; no other name is added, and every other name keeps its tag |
| Compounds.Has | tag.go:1642-1646 | Has holds exactly when Get finds a tag |
| Compounds.SetThenGet | tag.go:1637-1646 | after Set, Get and Has see the new tag under its name and nothing changed under any other name |
| Compounds.SetIdempotentAndLastWins | tag.go:1637-1639 | setting a tag already stored changes nothing; of two Sets under one name, the second wins |
| Compounds.GetBool | tag.go:1649-1656 | fails with NotFound exactly for a missing name; otherwise the stored tag's bool coercion |
| Compounds.GetInteger | tag.go:1659-1696 | GetByte, GetShort, GetInt and GetLong fail with NotFound for a missing name; otherwise they are the stored tag's coercion to their type |
| Compounds.GetByteArray | tag.go:1719-1726 | fails with NotFound for a missing name; otherwise the stored tag's byte-array coercion |
| Compounds.GetIntArray | tag.go:1769-1777 | fails with NotFound for a missing name; otherwise the stored tag's int-array coercion |
| Compounds.GetList | tag.go:1739-1751 | succeeds exactly when the name holds a List, with its elements; fails with NotFound for a missing name and with a cast error for another kind |
| Compounds.GetCompound | tag.go:1754-1767 | succeeds exactly when the name holds a Compound, with its entries; fails with NotFound for a missing name and with a cast error for another kind |
| Compounds.GettersSeeSet | tag.go:1649-1777 | after Set, every typed getter under that name answers with the coercion of the tag just stored |
| Coercions.Cast | tag.go:315-372 | a Go conversion always yields a value the target type can hold |
| Coercions.ToInteger | tag.go:187-275 | End coerces to 0; ByteArray, List, Compound and IntArray fail with a cast error; String goes through text parsing and Float and Double through float conversion; every other result fits the target type |
| Coercions.CoercionKeepsLowBits | tag.go:315-372 | an integer kind coerced to any integer type keeps exactly the low bits of the stored value that fit that type |
| Coercions.CoercionWidensExactly | tag.go:355-372 | coercing to a type at least as wide keeps the value, adding 2^bits for a negative value converted to an unsigned type |
| Coercions.CastThroughWider | tag.go:315-372 | converting through any wider intermediate type gives the same result as converting directly |
| Coercions.ToBoolIsNonZero | tag.go:310-312 | ToBool is false exactly on the zero value of each kind; floats compare as numbers, so negative zero is false too; a list is true exactly when it has elements |
| Coercions.ToBool | tag.go:310-312 | the zero value of every kind coerces to false |
| Coercions.ToBoolAgreesWithInteger | tag.go:310-312 | on the integer kinds, ToBool is true exactly when the integer coercion to a wide enough type is not zero |
| Coercions.ToIntArray | tag.go:395-397 | End gives the empty array and IntArray its own ints; Byte, Short and Int give the one-element array of their value; Long gives two ints; Float, Double, ByteArray, String, List and Compound fail with a cast error |
| Coercions.LongHalvesRecombine | tag.go:764-766 | the two ints of a Long are its high and low halves: high times 2^32 plus the low half read as unsigned is the Long |
| Coercions.ToByteArray | tag.go:1125-1127 | ByteArray and String give their bytes and End gives none; Float and Double give the 4 and 8 bytes of their bit pattern in the helper's byte order; List, Compound and IntArray fail with a cast error |
| Coercions.ToByteArrayIsWord | tag.go:754-756 | the bytes of an integer kind are exactly its width long and read back as its value in the helper's byte order |
| Envelope.HasGzipHeader | compress.go:39-41 | true exactly when the buffer starts with 1F 8B 08 |
| Envelope.HasZlibHeader | compress.go:43-45 | true exactly when the buffer starts with 78 |
| Envelope.MagicsDisjoint | compress.go:36-45 | no buffer carries both magics, so the order of the two tests in FromReader never matters |
| Envelope.Sniff | compress.go:68-92 | the buffer is gzip exactly when it has the gzip magic, zlib exactly when it has the zlib magic, and plain otherwise |
| Envelope.ShortBuffersArePlain | compress.go:39-41 | a buffer shorter than three bytes is never gzip; the empty buffer and the two-byte gzip prefix are taken as plain |
| Envelope.FromBytes | compress.go:62-95 | a plain buffer reaches the stream unchanged; a gzip or zlib buffer reaches it through its decompressor, whose error is passed on |
| Envelope.Compress | compress.go:100-134 | types 0 and 1 run gzip and zlib at the given level; any other type yields empty output and no error |
| Envelope.CompressThenRead | compress.go:62-134 | output of either codec that carries its magic and that its decompressor inverts reads back as the original bytes |
| Envelope.UnknownTypeReadsEmpty | compress.go:100-134 | the output of an unknown compression type reads back as empty |

## Left out

- **Output rendering.** `ToString` on every kind and the `String()` of the
  tree print text; they have no bearing on the codec.
- **Float semantics** are not modelled:
  - Float and Double are opaque bit patterns;
  - their integer coercions and `ToFloat32` / `ToFloat64` return the
    `ConvertFloat` outcome without computing it;
  - `GetFloat` and `GetDouble` are left out for the same reason.
- **Text-to-number coercions** of String (`strconv.Atoi` and friends,
  tag.go:1186-1260) return the `ParseText` outcome without parsing.
  `GetString` is left out with `ToString`.
- **Compression codecs.** gzip and zlib are library code. They are
  parameters of `Envelope.FromBytes` and `Envelope.Compress`.
- **I/O.** `ioutil.ReadAll` failures and `FromFile`'s `os.Open` are left
  out; the model starts from the bytes read.
- **Stream plumbing.** `NewStream`, `Reset` and `Bytes` are stream
  plumbing, so are not modelled.
- Envelope.Compress: the errors of `Flush` and `Close` are ignored by the
  code and are not modelled either. A codec failure after `Write` returns
  is therefore invisible in both.
- Compounds.Set: Go's `Set` on a Compound whose map is nil panics. The
  model has no nil maps, since every Compound read or built has a map.
- Codec.WriteEntries: `Compound.Write` calls `SetName` on each stored tag
  before writing it, mutating the tree. The model writes the tag under its
  key without changing the tree. A key order that names a key not in the
  map skips it; a Go map range never does. The order depends only on the
  map's contents, so two equal maps in one tree, such as the two Compounds
  of a List, are written in the same order here. Go picks an order afresh
  at each `range` (tag.go:1511), and output whose equal maps differ in order
  is not covered by the round-trip lemmas. The contract of `WriteEntries`
  states only the first byte and minimum length of its output; the whole
  framing of each entry is stated by `RoundTrip.WriteEntriesCons` and its
  read-back by `RoundTrip.EntriesRoundTrip`.
- Codec.WritePayload: has no contract of its own. The writers are mutually
  recursive and unfold inside every round-trip proof, so each kind's layout
  is stated by the lemma `Codec.PayloadLayout` instead, and its read-back by
  `RoundTrip.PayloadRoundTrip`.
- Codec.WriteListElems: as for `Codec.WritePayload`. That elements of another
  kind write nothing is stated by `Codec.ListElemsOfOtherKinds` and
  `Defects.ListWriteSkipsMismatched`.
- Codec.ReadTag: Go errors carry a message with the cursor offset. The
  model reduces every error to a kind of the `Error` datatype.
- Compounds.GetCompound: Go returns the `*Compound` tag. The model returns
  its map of entries, which is all the tag holds besides its name.
- Coercions.ToInteger: Go's `int` and `uint` are taken as 64 bits wide and
  `rune` as 32 bits, as on every 64-bit platform.
- Coercions.ToByteArray: the multi-byte kinds go through helper functions
  of the cursor library. Their byte order is a parameter here, since that
  library is not part of this model.
- Codec.ReadPayload: its own contract states only the kind it yields and
  that it consumes no more than the input. What it yields for each kind is
  stated against the writers by the RoundTrip lemmas, and against the
  defects by the Defects lemmas.
- Codec.ReadLeaf: as for `Codec.ReadPayload`. Its contents are stated by
  `RoundTrip.LeafPayloadRoundTrip`.
- Codec.ReadInteger: as for `Codec.ReadPayload`. Its contents are stated by
  `RoundTrip.IntegerPayloadRoundTrip`, `Defects.TruncatedIntegerReadsAsZero`
  and `Defects.IntegerReadNeedsItsBytes`.
- Codec.ReadFloating: as for `Codec.ReadPayload`. Its contents are stated by
  `RoundTrip.FloatingPayloadRoundTrip`.
- Codec.ReadByteArray: as for `Codec.ReadPayload`. Its contents are stated by
  `RoundTrip.ByteArrayPayloadRoundTrip`, `Defects.ZeroBytesReadBackEmpty`,
  `Defects.UncheckedByteArrayCount` and `Defects.ByteArrayCountChecked`.
- Codec.ReadIntArray: as for `Codec.ReadPayload`. Its contents are stated by
  `RoundTrip.IntArrayPayloadRoundTrip`, `Defects.IntArrayReadPanics` and the
  two negative-count lemmas of `Defects`.
- Codec.ReadList: as for `Codec.ReadPayload`. Its contents are stated by
  `Codec.ListElemsAreAnonymous`, `RoundTrip.ElemsRoundTrip` and the List
  lemmas of `Defects`.
- Codec.ReadCompound: as for `Codec.ReadPayload`. Its contents are stated by
  `Frames.ReadFramedCompound` and `RoundTrip.EntriesRoundTrip`.
- Codec.WriteTag: its own contract states only the framing's first byte and
  its minimum length. Its layout is stated by `RoundTrip.TagRoundTrip` and
  `Sample.RootLayout`.
- **Concurrency.** None exists in the core.

## Findings

| source | as written | input that shows it | evidently intended | confidence | as-written member | corrected member |
|---|---|---|---|---|---|---|
| tag.go:544-548 | `Int.Read` returns nil whatever error the cursor reported; `Long.Read` (tag.go:667-671) does the same | the framed tag `03 00 00` (an Int with no payload bytes) decodes to an Int holding 0, the value the cursor returns with its error | a short Int or Long payload is reported as truncated, like every other kind | not executed | Defects.TruncatedIntTagReadsAsZero | Defects.IntegerReadNeedsItsBytes |
| tag.go:1045-1047 | `ByteArray.Write` emits the bytes without the signed 32-bit count that `ByteArray.Read` expects | the byte array `00 00 00 00` is written as `00 00 00 00` and read back as an empty byte array | the writer emits the count, then the bytes | not executed | Defects.ByteArrayNeverRoundTrips | RoundTrip.ByteArrayPayloadRoundTrip |
| tag.go:1807-1813 | `IntArray.Read` stores each int into `t.Value`, which nothing allocated, so it indexes a nil slice | the IntArray payload `00 00 00 01 00 00 00 07` panics on its first int | the slice is allocated with the count before the loop | not executed | Defects.IntArrayReadPanics | RoundTrip.IntArrayPayloadRoundTrip |
| tag.go:1313-1318 | a negative List count is passed to `make` | the List payload `01 FF FF FF FF` panics | a negative count is rejected as an invalid length | not executed | Defects.NegativeListCountPanics | Defects.NegativeListCountRejected |
| binary.go:16-23 | `readString` returns the span `Get` gives without checking that the declared length was available | `00 05 61` reads as the empty string, leaving `61`; this depends on how the cursor library answers a short span read | a declared length beyond the input is reported as truncated | not executed; low, since it rests on the cursor library's short-read behaviour | Defects.OverlongStringReadsEmpty | Defects.StringReadTakesDeclaredLength |
| tag.go:1036-1042 | `ByteArray.Read` passes its count to `Get` without checking it | `00 00 00 05 61` reads as an empty byte array, leaving `61`; `FF FF FF FF` panics | a negative count is an invalid length and a count beyond the input is truncated | not executed; low for the overlong case, since it rests on the cursor library's short-read behaviour | Defects.UncheckedByteArrayCount | Defects.ByteArrayCountChecked |
| tag.go:1801-1811 | `IntArray.Read` runs its loop `int(ln)` times, so a negative count reads nothing | `FF FF FF FF` reads as an empty int array | a negative count is rejected as an invalid length, as for a List | not executed | Defects.NegativeIntArrayCountReadsEmpty | Defects.NegativeIntArrayCountRejected |
