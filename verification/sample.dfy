/** An end-to-end example: the root
    Compound {"a": Int 5, "b": String "x"} with an empty name, written in
    big-endian order, has the layout

      0A 00 00  03 00 01 'a' 00 00 00 05  08 00 01 'b' 00 01 'x'  00

    and reads back as the same tree. */
module Sample {
  import opened Ints
  import opened Results
  import opened Cursor
  import opened Binary
  import opened Tags
  import opened Codec
  import opened RoundTrip
  import opened Frames
  import Compounds

  const NameA: Bytes := [0x61]
  const NameB: Bytes := [0x62]

  const EntryA: Tag := Tag(NameA, Int(5))
  const EntryB: Tag := Tag(NameB, String([0x78]))

  const Entries: map<Bytes, Tag> := map[NameA := EntryA, NameB := EntryB]

  const Root: Tag := Tag([], Compound(Entries))

  const RootBytes: Bytes :=
    [0x0A, 0x00, 0x00,
     0x03, 0x00, 0x01, 0x61, 0x00, 0x00, 0x00, 0x05,
     0x08, 0x00, 0x01, 0x62, 0x00, 0x01, 0x78,
     0x00]

  lemma EntryALayout(b: Behaviour, ord: KeyOrder)
    ensures WriteTag(b, BigEndian, ord, EntryA) == [0x03, 0x00, 0x01, 0x61, 0x00, 0x00, 0x00, 0x05]
  {
    SmallBigEndian(1);
    SmallBigEndian(5);
  }

  lemma EntryBLayout(b: Behaviour, ord: KeyOrder)
    ensures WriteTag(b, BigEndian, ord, EntryB) == [0x08, 0x00, 0x01, 0x62, 0x00, 0x01, 0x78]
  {
    SmallBigEndian(1);
  }

  /** The entries in the order "a", "b" as one run of framed tags. */
  lemma EntriesAsRun(b: Behaviour, ord: KeyOrder)
    requires ord(Entries) == [NameA, NameB]
    ensures WriteEntries(b, BigEndian, ord, ord(Entries), Entries, Compound(Entries))
            == WriteAll(b, BigEndian, ord, [EntryA, EntryB])
  {
    var p := Compound(Entries);
    var keys := [NameA, NameB];
    assert keys[1..] == [NameB] && [NameB][1..] == [];
    assert Entries[NameA] == EntryA && Entries[NameB] == EntryB;
    var wa := WriteTag(b, BigEndian, ord, EntryA);
    var wb := WriteTag(b, BigEndian, ord, EntryB);
    assert WriteEntries(b, BigEndian, ord, [], Entries, p) == [];
    assert WriteEntries(b, BigEndian, ord, [NameB], Entries, p) == wb + [];
    assert WriteEntries(b, BigEndian, ord, keys, Entries, p) == wa + (wb + []);
    assert [EntryA, EntryB][1..] == [EntryB] && [EntryB][1..] == [];
    assert WriteAll(b, BigEndian, ord, [EntryB]) == wb + [];
    assert WriteAll(b, BigEndian, ord, [EntryA, EntryB]) == wa + (wb + []);
  }

  /** The run of the two entries, byte by byte. */
  lemma RunLayout(b: Behaviour, ord: KeyOrder)
    ensures WriteAll(b, BigEndian, ord, [EntryA, EntryB])
            == [0x03, 0x00, 0x01, 0x61, 0x00, 0x00, 0x00, 0x05, 0x08, 0x00, 0x01, 0x62, 0x00, 0x01, 0x78]
  {
    var wa := WriteTag(b, BigEndian, ord, EntryA);
    var wb := WriteTag(b, BigEndian, ord, EntryB);
    assert [EntryA, EntryB][1..] == [EntryB] && [EntryB][1..] == [];
    assert WriteAll(b, BigEndian, ord, [EntryB]) == wb + [];
    assert WriteAll(b, BigEndian, ord, [EntryA, EntryB]) == wa + (wb + []);
    EntryALayout(b, ord);
    EntryBLayout(b, ord);
  }

  /** The root's framing around its entries: the Compound id, the empty
      name, and the closing End id. */
  lemma RootFraming(b: Behaviour, ord: KeyOrder)
    ensures WriteTag(b, BigEndian, ord, Root)
            == [IdCompound, 0, 0] + WriteEntries(b, BigEndian, ord, ord(Entries), Entries, Compound(Entries)) + [IdEnd]
  {
    SmallBigEndian(0);
    assert WriteString(BigEndian, []) == [0, 0];
  }

  /** Written in big-endian order with "a" visited first, the root has the
      layout of `RootBytes`. */
  lemma RootLayout(b: Behaviour, ord: KeyOrder)
    requires ord(Entries) == [NameA, NameB]
    ensures WriteTag(b, BigEndian, ord, Root) == RootBytes
  {
    var e := WriteEntries(b, BigEndian, ord, ord(Entries), Entries, Compound(Entries));
    RootFraming(b, ord);
    EntriesAsRun(b, ord);
    RunLayout(b, ord);
    RootBytesParts(e);
  }

  lemma RootBytesParts(e: Bytes)
    requires e == [0x03, 0x00, 0x01, 0x61, 0x00, 0x00, 0x00, 0x05, 0x08, 0x00, 0x01, 0x62, 0x00, 0x01, 0x78]
    ensures [IdCompound, 0, 0] + e + [IdEnd] == RootBytes
  {
  }

  /** Both entries read back from their own framing. */
  lemma EntriesReproduced(b: Behaviour, ord: KeyOrder)
    ensures Reproduced(b, BigEndian, ord, EntryA)
    ensures Reproduced(b, BigEndian, ord, EntryB)
  {
    forall rest: Bytes ensures ReadTag(b, BigEndian, WriteTag(b, BigEndian, ord, EntryA) + rest) == Ok((EntryA, rest)) {
      LeafPayloadRoundTrip(b, BigEndian, ord, EntryA.value, rest);
      TagStep(b, BigEndian, ord, EntryA, rest);
    }
    forall rest: Bytes ensures ReadTag(b, BigEndian, WriteTag(b, BigEndian, ord, EntryB) + rest) == Ok((EntryB, rest)) {
      LeafPayloadRoundTrip(b, BigEndian, ord, EntryB.value, rest);
      TagStep(b, BigEndian, ord, EntryB, rest);
    }
  }

  /** Storing the two entries in order gives the root's map. */
  lemma EntriesStored()
    ensures SetAll(map[], [EntryA, EntryB]) == Entries
  {
    assert [EntryA, EntryB][1..] == [EntryB] && [EntryB][1..] == [];
    var m1 := Compounds.Set(map[], EntryA);
    var m2 := Compounds.Set(m1, EntryB);
    assert SetAll(m2, []) == m2;
    assert SetAll(m1, [EntryB]) == m2;
    assert SetAll(map[], [EntryA, EntryB]) == m2;
    assert m2 == Entries;
  }

  /** The root's payload reads back as its map. */
  lemma RootPayload(b: Behaviour, ord: KeyOrder)
    requires ord(Entries) == [NameA, NameB]
    ensures ReadPayload(b, BigEndian, IdCompound, WritePayload(b, BigEndian, ord, Compound(Entries)) + [])
            == Ok((Compound(Entries), []))
  {
    EntriesReproduced(b, ord);
    ReadFramedCompound(b, BigEndian, ord, [EntryA, EntryB], []);
    EntriesStored();
    EntriesAsRun(b, ord);
    WriteCompoundLayout(b, BigEndian, ord, Compound(Entries), []);
  }

  /** The root tree written under that order reads back whole. */
  lemma RootRoundTrip(b: Behaviour, ord: KeyOrder)
    requires ord(Entries) == [NameA, NameB]
    ensures ReadTag(b, BigEndian, WriteTag(b, BigEndian, ord, Root) + []) == Ok((Root, []))
  {
    RootPayload(b, ord);
    TagStep(b, BigEndian, ord, Root, []);
  }

  /** Reading `RootBytes` back gives the root tree, under either
      behaviour, and consumes them all. */
  lemma RootReadsBack(b: Behaviour)
    ensures ReadTag(b, BigEndian, RootBytes) == Ok((Root, []))
  {
    var ord: KeyOrder := m => if m == Entries then [NameA, NameB] else [];
    RootLayout(b, ord);
    RootRoundTrip(b, ord);
    assert RootBytes + [] == RootBytes;
  }
}
