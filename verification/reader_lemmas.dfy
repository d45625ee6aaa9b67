/**
 * Each reader of the decoder, given what the matching writer of the
 * encoder produced followed by anything, gives back the written value and
 * leaves exactly that anything.
 */
module ReaderLemmas {
  import opened Ints
  import opened Wrappers
  import opened Outcomes
  import opened Collaborators
  import opened Encoder
  import opened Decoder
  import VarInt

  /** Dropping the front of `a + t` by the length of `a` leaves `t`. */
  lemma DropFront(a: seq<byte>, t: seq<byte>)
    ensures (a + t)[..|a|] == a && (a + t)[|a|..] == t
  {
  }

  lemma ReadVarIntEncoded(n: nat, rest: seq<byte>)
    requires n <= U32_MAX
    ensures ReadVarIntU32(VarInt.Encode(n) + rest) == Success(Taken(n, rest))
  {
    VarInt.DecodeEncode(n, rest);
    DropFront(VarInt.Encode(n), rest);
  }

  lemma ReadBoundedEncoded(n: nat, max: u32, rest: seq<byte>)
    requires n <= max
    ensures ReadBoundedU32(VarInt.Encode(n) + rest, max) == Success(Taken(n, rest))
  {
    ReadVarIntEncoded(n, rest);
  }

  lemma ReadFixedEncoded<T(!new)>(codec: FixedCodec<T>, x: T, rest: seq<byte>)
    requires FixedRoundTrips(codec)
    ensures ReadFixed(codec.toBytes(x) + rest, codec) == Success(Taken(x, rest))
  {
    DropFront(codec.toBytes(x), rest);
  }

  lemma ReadCompactEncoded<T(!new)>(codec: CompactCodec<T>, x: T, rest: seq<byte>)
    requires CompactRoundTrips(codec)
    requires codec.encode(x).Success?
    ensures ReadCompact(codec.encode(x).value + rest, codec) == Success(Taken(x, rest))
  {
    DropFront(codec.encode(x).value, rest);
  }

  lemma {:induction false} ReadFixedListEncoded<T(!new)>(codec: FixedCodec<T>, xs: seq<T>, rest: seq<byte>)
    requires FixedRoundTrips(codec)
    ensures ReadFixedList(ConcatFixed(codec, xs) + rest, |xs|, codec) == Success(Taken(xs, rest))
    decreases |xs|
  {
    if |xs| > 0 {
      var head := codec.toBytes(xs[0]);
      var tail := ConcatFixed(codec, xs[1..]);
      assert ConcatFixed(codec, xs) + rest == head + (tail + rest);
      ReadFixedEncoded(codec, xs[0], tail + rest);
      ReadFixedListEncoded(codec, xs[1..], rest);
      assert [xs[0]] + xs[1..] == xs;
    } else {
      assert ConcatFixed(codec, xs) + rest == rest;
    }
  }

  lemma {:induction false} ReadCompactListEncoded<T(!new)>(codec: CompactCodec<T>, xs: seq<T>, rest: seq<byte>)
    requires CompactRoundTrips(codec)
    requires EncodeAll(codec, xs).Success?
    ensures ReadCompactList(EncodeAll(codec, xs).value + rest, |xs|, codec) == Success(Taken(xs, rest))
    decreases |xs|
  {
    if |xs| > 0 {
      var head := codec.encode(xs[0]).value;
      var tail := EncodeAll(codec, xs[1..]).value;
      assert EncodeAll(codec, xs).value + rest == head + (tail + rest);
      ReadCompactEncoded(codec, xs[0], tail + rest);
      ReadCompactListEncoded(codec, xs[1..], rest);
      assert [xs[0]] + xs[1..] == xs;
    } else {
      assert EncodeAll(codec, xs).value + rest == rest;
    }
  }

  /** The tag the encoder writes, read as four big-endian bytes, is 0 exactly for an absent operation. */
  lemma ReadPresenceTag(opt: Option<Operation>, rest: seq<byte>)
    ensures ReadTag(PresenceTag(opt) + rest, BigEndianTag) == Success(Taken(if opt.Some? then 1 else 0, rest))
  {
    DropFront(PresenceTag(opt), rest);
  }

  lemma ReadEntryEncoded(cs: Codecs, e: OperationEntry, rest: seq<byte>)
    requires FixedRoundTrips(cs.operationId) && CompactRoundTrips(cs.operation)
    requires EncodeEntry(e, cs).Success?
    ensures ReadEntry(EncodeEntry(e, cs).value + rest, cs, BigEndianTag) == Success(Taken(e, rest))
  {
    var idBytes := cs.operationId.toBytes(e.0);
    match e.1
    case None =>
      assert EncodeEntry(e, cs).value + rest == idBytes + (PresenceTag(None) + rest);
      ReadFixedEncoded(cs.operationId, e.0, PresenceTag(None) + rest);
      ReadPresenceTag(None, rest);
    case Some(op) =>
      var body := cs.operation.encode(op).value;
      assert EncodeEntry(e, cs).value + rest == idBytes + (PresenceTag(e.1) + (body + rest));
      ReadFixedEncoded(cs.operationId, e.0, PresenceTag(e.1) + (body + rest));
      ReadPresenceTag(e.1, body + rest);
      ReadCompactEncoded(cs.operation, op, rest);
  }

  lemma {:induction false} ReadEntriesEncoded(cs: Codecs, es: seq<OperationEntry>, rest: seq<byte>)
    requires FixedRoundTrips(cs.operationId) && CompactRoundTrips(cs.operation)
    requires EncodeEntries(es, cs).Success?
    ensures ReadEntries(EncodeEntries(es, cs).value + rest, |es|, cs, BigEndianTag) == Success(Taken(es, rest))
    decreases |es|
  {
    if |es| > 0 {
      var head := EncodeEntry(es[0], cs).value;
      var tail := EncodeEntries(es[1..], cs).value;
      assert EncodeEntries(es, cs).value + rest == head + (tail + rest);
      ReadEntryEncoded(cs, es[0], tail + rest);
      ReadEntriesEncoded(cs, es[1..], rest);
      assert [es[0]] + es[1..] == es;
    } else {
      assert EncodeEntries(es, cs).value + rest == rest;
    }
  }

  /** Inserting entries in order: a key takes the value of its last entry. */
  lemma {:induction false} InsertAllLastWins(acc: OperationMap, es: seq<OperationEntry>, i: nat)
    requires i < |es|
    requires forall j :: i < j < |es| ==> es[j].0 != es[i].0
    ensures es[i].0 in InsertAll(acc, es)
    ensures InsertAll(acc, es)[es[i].0] == es[i].1
    decreases |es|
  {
    if i == 0 {
      InsertAllKeeps(acc[es[0].0 := es[0].1], es[1..], es[0].0);
    } else {
      InsertAllLastWins(acc[es[0].0 := es[0].1], es[1..], i - 1);
    }
  }

  /** A key no entry mentions keeps its value from the accumulator. */
  lemma {:induction false} InsertAllKeeps(acc: OperationMap, es: seq<OperationEntry>, k: OperationId)
    requires k in acc
    requires forall j :: 0 <= j < |es| ==> es[j].0 != k
    ensures k in InsertAll(acc, es) && InsertAll(acc, es)[k] == acc[k]
    decreases |es|
  {
    if |es| > 0 {
      InsertAllKeeps(acc[es[0].0 := es[0].1], es[1..], k);
    }
  }

  /** Inserting an enumeration of a map into an empty map rebuilds that map. */
  lemma InsertAllEnumeration(es: seq<OperationEntry>, m: OperationMap)
    requires Enumerates(es, m)
    ensures InsertAll(map[], es) == m
  {
    var r := InsertAll(map[], es);
    InsertAllKeys(map[], es);
    assert r.Keys == m.Keys;
    forall k | k in m ensures r[k] == m[k] {
      var i :| 0 <= i < |es| && es[i].0 == k;
      InsertAllLastWins(map[], es, i);
    }
  }
}
