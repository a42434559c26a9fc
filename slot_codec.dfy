/** The save-file layout of a slot table: a version integer, then one
    integer per slot. Version 1 is written; a version of 0 or less marks the
    old four-slot layout, whose references are read and then discarded. */
module SlotCodec {
  import opened Wrappers
  import opened EquipResolver

  /** The version Serialize writes. */
  const FormatVersion := 1

  /** The number of slots in the old layout. */
  const LegacyCount := 4

  datatype DecodeError =
    | Truncated            // the stream ends before a read
    | LegacyTableTooShort  // a legacy block, but the table has fewer than LegacyCount slots

  /** The slots read from a block and the stream position after it. */
  datatype Decoded = Decoded(slots: seq<int>, next: nat)

  /** The block Serialize writes: the version first, then slot i at
      position i + 1, with no length prefix. */
  function Encode(slots: seq<int>): (e: seq<int>)
    ensures |e| == |slots| + 1 && e[0] == FormatVersion
    ensures forall i :: 0 <= i < |slots| ==> e[i + 1] == slots[i]
  {
    [FormatVersion] + slots
  }

  /** Reading a block for a table of `n` slots from `data` at position `pos`,
      as Deserialize does: the version, then `n` references (version > 0) or
      LegacyCount references that are then dropped (version <= 0). */
  function Decode(data: seq<int>, pos: nat, n: nat): (r: Result<Decoded, DecodeError>)
    ensures r.Success? ==> |r.value.slots| == n && pos < r.value.next <= |data|
  {
    if pos >= |data| then Failure(Truncated)
    else if data[pos] > 0 then
      if pos + 1 + n <= |data| then Success(Decoded(data[pos + 1..pos + 1 + n], pos + 1 + n))
      else Failure(Truncated)
    else if n < LegacyCount then Failure(LegacyTableTooShort)
    else if pos + 1 + LegacyCount <= |data| then Success(Decoded(Zeros(n), pos + 1 + LegacyCount))
    else Failure(Truncated)
  }

  /** Round trip: a block written by Serialize, wherever it sits in the
      stream and whatever follows it, reads back as the same slots and leaves
      the cursor just past it. */
  lemma DecodeEncode(before: seq<int>, slots: seq<int>, after: seq<int>)
    ensures Decode(before + Encode(slots) + after, |before|, |slots|)
         == Success(Decoded(slots, |before| + 1 + |slots|))
  {
    var data := before + Encode(slots) + after;
    var p := |before|;
    assert data[p] == FormatVersion;
    assert data[p + 1..p + 1 + |slots|] == slots;
  }

  /** Legacy migration: a block with a version of 0 or less always yields an
      empty table, whatever the four references that follow it hold. */
  lemma DecodeLegacyDiscards(data: seq<int>, pos: nat, n: nat)
    requires pos < |data| && data[pos] <= 0
    requires n >= LegacyCount && pos + 1 + LegacyCount <= |data|
    ensures Decode(data, pos, n) == Success(Decoded(Zeros(n), pos + 1 + LegacyCount))
  {
  }

  /** The four legacy references never matter: two streams that differ only
      in the references of a legacy block decode that block the same,
      wherever it sits and whatever follows it, and for any table length
      (the too-short-table failure included). */
  lemma DecodeLegacyIgnoresReferences(before: seq<int>, version: int, old1: seq<int>, old2: seq<int>,
                                      after: seq<int>, n: nat)
    requires version <= 0 && |old1| == LegacyCount && |old2| == LegacyCount
    ensures Decode(before + [version] + old1 + after, |before|, n)
         == Decode(before + [version] + old2 + after, |before|, n)
  {
    var d1 := before + [version] + old1 + after;
    var d2 := before + [version] + old2 + after;
    assert d1[|before|] == version && d2[|before|] == version;
  }

  /** Decoding fails exactly when the stream is too short for the block its
      version announces, or a legacy block meets a table under four slots. */
  lemma DecodeFails(data: seq<int>, pos: nat, n: nat)
    ensures Decode(data, pos, n).Failure? <==>
      || pos >= |data|
      || (data[pos] > 0 && |data| < pos + 1 + n)
      || (data[pos] <= 0 && (n < LegacyCount || |data| < pos + 1 + LegacyCount))
  {
  }
}
