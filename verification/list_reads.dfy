/**
 * What the list readers of the decoder hand back, on any input. All three
 * are one reader applied `n` times, each time from where the previous one
 * stopped (`ReadMany`); so the `i`-th element is the one read after the
 * first `i`, and the elements are in wire order. For the operation map this
 * means its keys are the ids read and a repeated id keeps the value read
 * last.
 */
module ListReads {
  import opened Ints
  import opened Wrappers
  import opened Outcomes
  import opened Collaborators
  import opened Decoder
  import ReaderLemmas

  /** `read`, `n` times in a row, stopping at the first failure. */
  function ReadMany<T>(s: seq<byte>, n: nat, read: seq<byte> -> Read<T>): (r: Read<seq<T>>)
    ensures r.Success? ==> |r.value.value| == n
    decreases n
  {
    if n == 0 then Success(Taken([], s))
    else
      var head :- read(s);
      var tail :- ReadMany(head.rest, n - 1, read);
      Success(Taken([head.value] + tail.value, tail.rest))
  }

  /** The `i`-th value is what `read` gives where the first `i` stopped. */
  lemma {:induction false} ReadManyAt<T>(s: seq<byte>, n: nat, read: seq<byte> -> Read<T>, i: nat)
    requires ReadMany(s, n, read).Success? && i < n
    ensures ReadMany(s, i, read).Success?
    ensures read(ReadMany(s, i, read).value.rest).Success?
    ensures read(ReadMany(s, i, read).value.rest).value.value == ReadMany(s, n, read).value.value[i]
    decreases i
  {
    if i > 0 {
      ReadManyAt(read(s).value.rest, n - 1, read, i - 1);
    }
  }

  /** `ReadFixedList` is `ReadFixed`, `n` times. */
  lemma {:induction false} FixedListIsMany<T>(s: seq<byte>, n: nat, codec: FixedCodec<T>)
    ensures ReadFixedList(s, n, codec) == ReadMany(s, n, x => ReadFixed(x, codec))
    decreases n
  {
    if n > 0 {
      var head := ReadFixed(s, codec);
      if head.Success? {
        FixedListIsMany(head.value.rest, n - 1, codec);
      }
    }
  }

  /** `ReadCompactList` is `ReadCompact`, `n` times. */
  lemma {:induction false} CompactListIsMany<T(!new)>(s: seq<byte>, n: nat, codec: CompactCodec<T>)
    ensures ReadCompactList(s, n, codec) == ReadMany(s, n, x => ReadCompact(x, codec))
    decreases n
  {
    if n > 0 {
      var head := ReadCompact(s, codec);
      if head.Success? {
        CompactListIsMany(head.value.rest, n - 1, codec);
      }
    }
  }

  /** `ReadEntries` is `ReadEntry`, `n` times. */
  lemma {:induction false} EntriesIsMany(s: seq<byte>, n: nat, cs: Codecs, tag: TagFormat)
    ensures ReadEntries(s, n, cs, tag) == ReadMany(s, n, x => ReadEntry(x, cs, tag))
    decreases n
  {
    if n > 0 {
      var head := ReadEntry(s, cs, tag);
      if head.Success? {
        EntriesIsMany(head.value.rest, n - 1, cs, tag);
      }
    }
  }

  /** The `i`-th compact object of a list is read from where the first `i` stopped. */
  lemma {:induction false} ReadCompactListAt<T(!new)>(s: seq<byte>, n: nat, codec: CompactCodec<T>, i: nat)
    requires ReadCompactList(s, n, codec).Success? && i < n
    ensures ReadCompactList(s, i, codec).Success?
    ensures ReadCompact(ReadCompactList(s, i, codec).value.rest, codec).Success?
    ensures ReadCompact(ReadCompactList(s, i, codec).value.rest, codec).value.value == ReadCompactList(s, n, codec).value.value[i]
  {
    CompactListIsMany(s, n, codec);
    CompactListIsMany(s, i, codec);
    ReadManyAt(s, n, x => ReadCompact(x, codec), i);
  }

  /** The `i`-th entry of an operation map is read from where the first `i` stopped. */
  lemma {:induction false} ReadEntriesAt(s: seq<byte>, n: nat, cs: Codecs, tag: TagFormat, i: nat)
    requires ReadEntries(s, n, cs, tag).Success? && i < n
    ensures ReadEntries(s, i, cs, tag).Success?
    ensures ReadEntry(ReadEntries(s, i, cs, tag).value.rest, cs, tag).Success?
    ensures ReadEntry(ReadEntries(s, i, cs, tag).value.rest, cs, tag).value.value == ReadEntries(s, n, cs, tag).value.value[i]
  {
    EntriesIsMany(s, n, cs, tag);
    EntriesIsMany(s, i, cs, tag);
    ReadManyAt(s, n, x => ReadEntry(x, cs, tag), i);
  }

  /** No entry after the `i`-th has the same id. */
  predicate LastOfId(es: seq<OperationEntry>, i: nat)
    requires i < |es|
  {
    forall j :: i < j < |es| ==> es[j].0 != es[i].0
  }

  /**
   * A decoded operation map holds exactly the ids of the entries read, and
   * each id the value of the last entry read for it.
   */
  lemma DecodedOperationMap(s: seq<byte>, max: u32, cs: Codecs, tag: TagFormat)
    requires DeserializeOperationOptMap(s, max, cs, tag).Success?
    ensures ReadBoundedU32(s, max).Success?
    ensures var count := ReadBoundedU32(s, max).value;
            var es := ReadEntries(count.rest, count.value, cs, tag);
            && es.Success?
            && DeserializeOperationOptMap(s, max, cs, tag).value.value.Keys == EntryKeys(es.value.value)
            && forall i :: 0 <= i < |es.value.value| && LastOfId(es.value.value, i) ==>
                 DeserializeOperationOptMap(s, max, cs, tag).value.value[es.value.value[i].0] == es.value.value[i].1
  {
    var count := ReadBoundedU32(s, max).value;
    var es := ReadEntries(count.rest, count.value, cs, tag).value.value;
    InsertAllKeys(map[], es);
    forall i | 0 <= i < |es| && LastOfId(es, i)
      ensures InsertAll(map[], es)[es[i].0] == es[i].1
    {
      ReaderLemmas.InsertAllLastWins(map[], es, i);
    }
  }
}
