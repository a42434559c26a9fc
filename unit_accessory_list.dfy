/** A unit's accessory list (`UnitAccessoryList`): a fixed-length array of
    slot references, updated in place by the hooks. Each method is proved
    against the sequence function of EquipResolver or SlotCodec that
    describes its effect. */
module UnitAccessoryLists {
  import opened Wrappers
  import opened AccessoryKinds
  import opened EquipResolver
  import opened SlotCodec
  import opened Streams

  /** The number of slots every list has, the value the get_Count hook
      returns and the length the patched constructor allocates. */
  const Count := 16

  class UnitAccessoryList {
    /** `unit_accessory_array`: the `index` of each slot's UnitAccessory. */
    var slots: array<int>

    /** The constructor hook: after the original allocates the array, every
        slot becomes a fresh, empty UnitAccessory. */
    constructor ()
      ensures fresh(slots) && slots.Length == Count
      ensures slots[..] == Zeros(Count)
    {
      var a := new int[Count];
      var i := 0;
      while i < a.Length
        invariant 0 <= i <= a.Length
        invariant forall k :: 0 <= k < i ==> a[k] == Empty
      {
        a[i] := Empty;
        i := i + 1;
      }
      slots := a;
    }

    /** Clear: every slot becomes empty; the array stays the same. */
    method Clear()
      modifies slots
      ensures slots[..] == Zeros(slots.Length)
    {
      var i := 0;
      while i < slots.Length
        invariant 0 <= i <= slots.Length
        invariant forall k :: 0 <= k < i ==> slots[k] == Empty
      {
        slots[i] := Empty;
        i := i + 1;
      }
    }

    /** CopyFrom: position-wise copy of the references of `list`, over the
        shorter of the two arrays; `list` is left as it was. */
    method CopyFrom(list: UnitAccessoryList)
      modifies slots
      ensures slots[..] == CopiedFrom(old(slots[..]), old(list.slots[..]))
      ensures list.slots[..] == old(list.slots[..])
    {
      ghost var want := CopiedFrom(slots[..], list.slots[..]);
      var n := if slots.Length < list.slots.Length then slots.Length else list.slots.Length;
      var i := 0;
      while i < n
        invariant 0 <= i <= n
        invariant forall k :: 0 <= k < i ==> slots[k] == want[k]
        invariant forall k :: i <= k < slots.Length ==> slots[k] == old(slots[k])
        invariant forall k :: 0 <= k < list.slots.Length ==> list.slots[k] == old(list.slots[k])
      {
        slots[i] := list.slots[i];
        i := i + 1;
      }
    }

    /** Add: with no accessory, reject and change nothing; otherwise the
        conflict pass and the placement that Equip describes, and accept. */
    method Add(catalog: seq<Accessory>, accessory: Option<Accessory>, index: nat) returns (added: bool)
      requires accessory.Some? ==> index != slots.Length
      modifies slots
      ensures added == accessory.Some?
      ensures accessory.None? ==> slots[..] == old(slots[..])
      ensures accessory.Some? ==> slots[..] == Equip(old(slots[..]), catalog, accessory.value, index)
    {
      if accessory.None? {
        return false;
      }
      var acc := accessory.value;
      ghost var cleared := ClearConflicts(slots[..], catalog, acc.mask);
      var i := 0;
      while i < slots.Length
        invariant 0 <= i <= slots.Length
        invariant forall k :: 0 <= k < i ==> slots[k] == cleared[k]
        invariant forall k :: i <= k < slots.Length ==> slots[k] == old(slots[k])
      {
        var r := slots[i];
        if 0 <= r < |catalog| && catalog[r].mask == acc.mask {
          slots[i] := Empty;
        }
        i := i + 1;
      }
      assert slots[..] == cleared;
      if index > slots.Length {
        ghost var filled := FillEmpty(cleared, acc.index);
        i := 0;
        while i < slots.Length
          invariant 0 <= i <= slots.Length
          invariant forall k :: 0 <= k < i ==> slots[k] == filled[k]
          invariant forall k :: i <= k < slots.Length ==> slots[k] == cleared[k]
        {
          if slots[i] == Empty {
            slots[i] := acc.index;
          }
          i := i + 1;
        }
        assert slots[..] == filled;
      } else {
        slots[index] := acc.index;
      }
      added := true;
    }

    /** IsExist: an accessory is given and some slot resolves to a catalog
        entry with the same identifier. References outside the catalog never
        match. */
    function IsExist(catalog: seq<Accessory>, accessory: Option<Accessory>): (b: bool)
      reads this, slots
      ensures b <==> (accessory.Some? &&
                      exists i :: 0 <= i < slots.Length && Resolves(catalog, slots[i])
                                  && catalog[slots[i]].aid == accessory.value.aid)
    {
      accessory.Some? && AidEquipped(slots[..], catalog, accessory.value.aid)
    }

    /** Serialize: the version, then every slot in order. */
    method Serialize(stream: Stream)
      modifies stream
      ensures stream.data == old(stream.data) + Encode(slots[..])
      ensures stream.pos == old(stream.pos)
    {
      stream.WriteInt(FormatVersion);
      var i := 0;
      while i < slots.Length
        invariant 0 <= i <= slots.Length
        invariant stream.data == old(stream.data) + [FormatVersion] + slots[..i]
        invariant stream.pos == old(stream.pos)
      {
        stream.WriteInt(slots[i]);
        assert slots[..i + 1] == slots[..i] + [slots[i]];
        i := i + 1;
      }
      assert slots[..i] == slots[..];
    }

    /** Deserialize: empty every slot, read the version, then read one
        reference per slot (version > 0) or read four references into the
        first four slots and empty them again (version <= 0). A failed read
        or a legacy block on a list under four slots aborts in the game and
        is excluded here. */
    method Deserialize(stream: Stream)
      requires Decode(stream.data, stream.pos, slots.Length).Success?
      modifies slots, stream
      ensures stream.data == old(stream.data)
      ensures var d := Decode(old(stream.data), old(stream.pos), slots.Length).value;
        slots[..] == d.slots && stream.pos == d.next
    {
      ghost var d := Decode(stream.data, stream.pos, slots.Length).value;
      ghost var start := stream.pos;
      var i := 0;
      while i < slots.Length
        invariant 0 <= i <= slots.Length
        invariant forall k :: 0 <= k < i ==> slots[k] == Empty
        invariant stream.data == old(stream.data) && stream.pos == start
      {
        slots[i] := Empty;
        i := i + 1;
      }
      var version := stream.ReadInt();
      if version > 0 {
        i := 0;
        while i < slots.Length
          invariant 0 <= i <= slots.Length
          invariant stream.data == old(stream.data) && stream.pos == start + 1 + i
          invariant forall k :: 0 <= k < i ==> slots[k] == d.slots[k]
        {
          var v := stream.ReadInt();
          slots[i] := v;
          i := i + 1;
        }
      } else {
        i := 0;
        while i < LegacyCount
          invariant 0 <= i <= LegacyCount
          invariant stream.data == old(stream.data) && stream.pos == start + 1 + i
          invariant forall k :: LegacyCount <= k < slots.Length ==> slots[k] == Empty
        {
          var v := stream.ReadInt();
          slots[i] := v;
          i := i + 1;
        }
        i := 0;
        while i < LegacyCount
          invariant 0 <= i <= LegacyCount
          invariant forall k :: 0 <= k < i ==> slots[k] == Empty
          invariant forall k :: LegacyCount <= k < slots.Length ==> slots[k] == Empty
          invariant stream.data == old(stream.data) && stream.pos == start + 1 + LegacyCount
        {
          slots[i] := Empty;
          i := i + 1;
        }
      }
      assert slots[..] == d.slots;
    }
  }
}
