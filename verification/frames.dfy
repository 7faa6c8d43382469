/** What `Compound.Read` makes of any run of framed tags closed by an End
    tag, whether or not a writer of this codec produced it: every tag is
    stored under its own name, in stream order, so a name that occurs twice
    keeps the later tag. */
module Frames {
  import opened Ints
  import opened Results
  import opened Cursor
  import opened Binary
  import opened Tags
  import opened Codec
  import opened RoundTrip
  import Compounds

  /** The framed tags of ts, one after another. */
  function WriteAll(b: Behaviour, o: ByteOrder, ord: KeyOrder, ts: seq<Tag>): (r: Bytes)
    ensures |r| >= 3 * |ts|
  {
    if ts == [] then [] else WriteTag(b, o, ord, ts[0]) + WriteAll(b, o, ord, ts[1..])
  }

  /** acc after `Set` of every tag of ts, in order. */
  function SetAll(acc: map<Bytes, Tag>, ts: seq<Tag>): map<Bytes, Tag>
    decreases |ts|
  {
    if ts == [] then acc else SetAll(Compounds.Set(acc, ts[0]), ts[1..])
  }

  /** The names of the tags of ts. */
  function Names(ts: seq<Tag>): (r: set<Bytes>)
    ensures forall i | 0 <= i < |ts| :: ts[i].name in r
    ensures forall k | k in r :: exists i | 0 <= i < |ts| :: ts[i].name == k
  {
    if ts == [] then {}
    else
      var r := {ts[0].name} + Names(ts[1..]);
      assert forall i | 1 <= i < |ts| :: ts[i] == ts[1..][i - 1];
      r
  }

  /** Tag i is the last of ts with its name. */
  predicate LastOfName(ts: seq<Tag>, i: int)
    requires 0 <= i < |ts|
  {
    forall j | i < j < |ts| :: ts[j].name != ts[i].name
  }

  /** `SetAll` stores exactly the names already stored and those of ts. */
  lemma {:induction false} SetAllKeys(acc: map<Bytes, Tag>, ts: seq<Tag>)
    ensures SetAll(acc, ts).Keys == acc.Keys + Names(ts)
    decreases |ts|
  {
    if ts != [] {
      SetAllKeys(Compounds.Set(acc, ts[0]), ts[1..]);
    }
  }

  /** Under a name of ts, `SetAll` holds the last tag with that name. */
  lemma {:induction false} SetAllLastWins(acc: map<Bytes, Tag>, ts: seq<Tag>, i: int)
    requires 0 <= i < |ts| && LastOfName(ts, i)
    ensures ts[i].name in SetAll(acc, ts) && SetAll(acc, ts)[ts[i].name] == ts[i]
    decreases |ts|
  {
    var tail := ts[1..];
    var acc' := Compounds.Set(acc, ts[0]);
    if i == 0 {
      SetAllKeepsOthers(acc', tail, ts[0].name);
    } else {
      assert tail[i - 1] == ts[i];
      assert LastOfName(tail, i - 1) by {
        forall j | i - 1 < j < |tail| ensures tail[j].name != tail[i - 1].name {
          assert tail[j] == ts[j + 1];
        }
      }
      SetAllLastWins(acc', tail, i - 1);
    }
  }

  /** A name no tag of ts carries keeps what was stored under it. */
  lemma {:induction false} SetAllKeepsOthers(acc: map<Bytes, Tag>, ts: seq<Tag>, k: Bytes)
    requires k in acc
    requires forall j | 0 <= j < |ts| :: ts[j].name != k
    ensures k in SetAll(acc, ts) && SetAll(acc, ts)[k] == acc[k]
    decreases |ts|
  {
    if ts != [] {
      var tail := ts[1..];
      assert forall j | 0 <= j < |tail| :: tail[j] == ts[j + 1];
      SetAllKeepsOthers(Compounds.Set(acc, ts[0]), tail, k);
    }
  }

  /** The framing of a non-empty run, before any bytes: its first tag's
      framing, then the rest. */
  lemma WriteAllThen(b: Behaviour, o: ByteOrder, ord: KeyOrder, ts: seq<Tag>, after: Bytes)
    requires ts != []
    ensures WriteAll(b, o, ord, ts) + after == WriteTag(b, o, ord, ts[0]) + (WriteAll(b, o, ord, ts[1..]) + after)
  {
  }

  /** The tags after the first of a reproduced run are reproduced too. */
  lemma ReproducedTail(b: Behaviour, o: ByteOrder, ord: KeyOrder, ts: seq<Tag>)
    requires ts != [] && forall i | 0 <= i < |ts| :: Reproduced(b, o, ord, ts[i])
    ensures forall i | 0 <= i < |ts[1..]| :: Reproduced(b, o, ord, ts[1..][i])
  {
    assert forall i | 0 <= i < |ts[1..]| :: ts[1..][i] == ts[i + 1];
  }

  lemma WriteAllCons(b: Behaviour, o: ByteOrder, ord: KeyOrder, ts: seq<Tag>, rest: Bytes)
    requires ts != []
    ensures WriteAll(b, o, ord, ts) + [IdEnd] + rest
            == WriteTag(b, o, ord, ts[0]) + (WriteAll(b, o, ord, ts[1..]) + [IdEnd] + rest)
  {
  }

  lemma ReadEndOfEntries(b: Behaviour, o: ByteOrder, ord: KeyOrder, acc: map<Bytes, Tag>, rest: Bytes)
    ensures ReadEntries(b, o, WriteAll(b, o, ord, []) + [IdEnd] + rest, acc) == Ok((acc, rest))
  {
    assert WriteAll(b, o, ord, []) + [IdEnd] + rest == [IdEnd] + rest;
    assert ([IdEnd] + rest)[1..] == rest;
  }

  /** A tag other than End that reads back from its own framing, whatever
      follows it. */
  ghost predicate Reproduced(b: Behaviour, o: ByteOrder, ord: KeyOrder, t: Tag) {
    && t.value.Id() != IdEnd
    && forall rest: Bytes :: ReadTag(b, o, WriteTag(b, o, ord, t) + rest) == Ok((t, rest))
  }

  /** Every well-formed tag is reproduced under a key order that lists each
      map's keys. */
  lemma WellFormedIsReproduced(b: Behaviour, o: ByteOrder, ord: KeyOrder, t: Tag)
    requires ValidOrder(ord) && WellFormedTag(b, t)
    ensures Reproduced(b, o, ord, t)
  {
    forall rest: Bytes ensures ReadTag(b, o, WriteTag(b, o, ord, t) + rest) == Ok((t, rest)) {
      TagRoundTrip(b, o, ord, t, rest);
    }
  }

  lemma ReproducedEntry(b: Behaviour, o: ByteOrder, ord: KeyOrder, t: Tag, tail: Bytes,
                        acc: map<Bytes, Tag>, result: Result<(map<Bytes, Tag>, Bytes)>)
    requires Reproduced(b, o, ord, t)
    requires ReadEntries(b, o, tail, Compounds.Set(acc, t)) == result
    ensures ReadEntries(b, o, WriteTag(b, o, ord, t) + tail, acc) == result
  {
    assert ReadTag(b, o, WriteTag(b, o, ord, t) + tail) == Ok((t, tail));
    ReadEntriesCons(b, o, WriteTag(b, o, ord, t), tail, t, acc, result);
  }

  /** The entry loop of `Compound.Read` over any run of framed tags stores
      them all, in order, and stops right after the End tag. */
  lemma {:induction false} ReadAllEntries(b: Behaviour, o: ByteOrder, ord: KeyOrder, ts: seq<Tag>,
                                          acc: map<Bytes, Tag>, rest: Bytes)
    requires forall i | 0 <= i < |ts| :: Reproduced(b, o, ord, ts[i])
    ensures ReadEntries(b, o, WriteAll(b, o, ord, ts) + [IdEnd] + rest, acc) == Ok((SetAll(acc, ts), rest))
    decreases |ts|
  {
    if ts == [] {
      ReadEndOfEntries(b, o, ord, acc, rest);
    } else {
      WriteAllCons(b, o, ord, ts, rest);
      ReproducedTail(b, o, ord, ts);
      ReadAllEntries(b, o, ord, ts[1..], Compounds.Set(acc, ts[0]), rest);
      ReproducedEntry(b, o, ord, ts[0], WriteAll(b, o, ord, ts[1..]) + [IdEnd] + rest, acc, Ok((SetAll(acc, ts), rest)));
    }
  }

  /** The entry loop of `Compound.Read` over reproduced framed tags followed
      by bytes that do not read as a tag fails with that tag's error: the
      entries already read are dropped, not returned. */
  lemma {:induction false} ReadEntriesStopsAtFailure(b: Behaviour, o: ByteOrder, ord: KeyOrder, ts: seq<Tag>,
                                                     acc: map<Bytes, Tag>, after: Bytes, e: Error)
    requires forall i | 0 <= i < |ts| :: Reproduced(b, o, ord, ts[i])
    requires ReadTag(b, o, after) == Err(e)
    ensures ReadEntries(b, o, WriteAll(b, o, ord, ts) + after, acc) == Err(e)
    decreases |ts|
  {
    if ts == [] {
      assert WriteAll(b, o, ord, ts) + after == after;
    } else {
      WriteAllThen(b, o, ord, ts, after);
      ReproducedTail(b, o, ord, ts);
      ReadEntriesStopsAtFailure(b, o, ord, ts[1..], Compounds.Set(acc, ts[0]), after, e);
      ReproducedEntry(b, o, ord, ts[0], WriteAll(b, o, ord, ts[1..]) + after, acc, Err(e));
    }
  }

  /** A compound payload made of reproduced framed tags reads as the map
      holding, for every name, the last tag written under it. */
  lemma ReadFramedCompound(b: Behaviour, o: ByteOrder, ord: KeyOrder, ts: seq<Tag>, rest: Bytes)
    requires forall i | 0 <= i < |ts| :: Reproduced(b, o, ord, ts[i])
    ensures ReadPayload(b, o, IdCompound, WriteAll(b, o, ord, ts) + [IdEnd] + rest)
            == Ok((Compound(SetAll(map[], ts)), rest))
  {
    ReadAllEntries(b, o, ord, ts, map[], rest);
    ReadCompoundCons(b, o, WriteAll(b, o, ord, ts) + [IdEnd] + rest, SetAll(map[], ts), rest);
  }

  /** A compound payload made of framed tags reads as the map holding, for
      every name, the last tag written under it. */
  lemma CompoundKeepsLastOfEachName(b: Behaviour, o: ByteOrder, ord: KeyOrder, ts: seq<Tag>, rest: Bytes)
    requires ValidOrder(ord)
    requires forall i | 0 <= i < |ts| :: WellFormedTag(b, ts[i])
    ensures ReadPayload(b, o, IdCompound, WriteAll(b, o, ord, ts) + [IdEnd] + rest)
            == Ok((Compound(SetAll(map[], ts)), rest))
    ensures SetAll(map[], ts).Keys == Names(ts)
    ensures forall i | 0 <= i < |ts| && LastOfName(ts, i) :: SetAll(map[], ts)[ts[i].name] == ts[i]
  {
    forall i | 0 <= i < |ts| ensures Reproduced(b, o, ord, ts[i]) {
      WellFormedIsReproduced(b, o, ord, ts[i]);
    }
    ReadFramedCompound(b, o, ord, ts, rest);
    SetAllKeys(map[], ts);
    forall i | 0 <= i < |ts| && LastOfName(ts, i) ensures SetAll(map[], ts)[ts[i].name] == ts[i] {
      SetAllLastWins(map[], ts, i);
    }
  }
}
