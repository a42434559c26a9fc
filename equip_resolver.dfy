/** The slot table's contents as a sequence of slot references, and what the
    equip, membership, clear and copy hooks do to such a sequence. A slot
    holds the catalog position of the accessory it references, or Empty.
    The catalog is the game's read-only accessory list. */
module EquipResolver {
  import opened Wrappers
  import opened AccessoryKinds

  /** The reference an empty slot holds. */
  const Empty := 0

  /** `accessories.get(r as usize)`: the entry at position `r`, if any. A
      negative `r` turns into a huge unsigned index and finds none; Empty
      still finds entry 0 of a non-empty catalog. */
  function Lookup(catalog: seq<Accessory>, r: int): (o: Option<Accessory>)
    ensures o.Some? <==> 0 <= r < |catalog|
    ensures r < 0 ==> o.None?
    ensures r == Empty && |catalog| > 0 ==> o == Some(catalog[0])
    ensures o.Some? ==> o.value == catalog[r]
  {
    if r < 0 || r >= |catalog| then None else Some(catalog[r])
  }

  /** A slot holding `r` references some catalog entry. */
  predicate Resolves(catalog: seq<Accessory>, r: int)
    ensures Resolves(catalog, r) <==> 0 <= r < |catalog|
  {
    Lookup(catalog, r).Some?
  }

  /** A slot holding `r` conflicts with an accessory of mask `mask` when `r`
      resolves to an entry with exactly that mask (equality, not bit overlap). */
  predicate Conflicts(catalog: seq<Accessory>, r: int, mask: int)
    ensures Conflicts(catalog, r, mask) <==> 0 <= r < |catalog| && catalog[r].mask == mask
  {
    match Lookup(catalog, r)
    case Some(found) => found.mask == mask
    case None => false
  }

  /** Every slot of the given length empty: what Clear and the constructor leave. */
  function Zeros(n: nat): (z: seq<int>)
    ensures |z| == n
    ensures forall i :: 0 <= i < n ==> z[i] == Empty
  {
    if n == 0 then [] else Zeros(n - 1) + [Empty]
  }

  /** The conflict pass of Add: each slot that conflicts with `mask` is
      emptied, each other slot is kept. */
  function ClearConflicts(slots: seq<int>, catalog: seq<Accessory>, mask: int): (r: seq<int>)
    ensures |r| == |slots|
    ensures forall i :: 0 <= i < |slots| && Conflicts(catalog, slots[i], mask) ==> r[i] == Empty
    ensures forall i :: 0 <= i < |slots| && !Conflicts(catalog, slots[i], mask) ==> r[i] == slots[i]
  {
    if slots == [] then []
    else
      var rest := ClearConflicts(slots[1..], catalog, mask);
      assert forall i :: 1 <= i < |slots| ==> slots[1..][i - 1] == slots[i];
      [if Conflicts(catalog, slots[0], mask) then Empty else slots[0]] + rest
  }

  /** The overflow placement of Add: every empty slot (not only the first)
      receives `ref`; the occupied slots are kept. */
  function FillEmpty(slots: seq<int>, ref: int): (r: seq<int>)
    ensures |r| == |slots|
    ensures forall i :: 0 <= i < |slots| && slots[i] == Empty ==> r[i] == ref
    ensures forall i :: 0 <= i < |slots| && slots[i] != Empty ==> r[i] == slots[i]
  {
    if slots == [] then []
    else
      var rest := FillEmpty(slots[1..], ref);
      assert forall i :: 1 <= i < |slots| ==> slots[1..][i - 1] == slots[i];
      [if slots[0] == Empty then ref else slots[0]] + rest
  }

  /** The slots after Add(accessory, index) on `slots`: the conflict pass, then
      either the write at `index` or, when `index` exceeds the length, the
      overflow fill. An `index` equal to the length is an out-of-bounds
      write in the hook and is excluded. */
  function Equip(slots: seq<int>, catalog: seq<Accessory>, accessory: Accessory, index: nat): (r: seq<int>)
    requires index != |slots|
    ensures |r| == |slots|
  {
    var cleared := ClearConflicts(slots, catalog, accessory.mask);
    if index > |slots| then FillEmpty(cleared, accessory.index)
    else cleared[index := accessory.index]
  }

  /** The membership test of IsExist: some slot resolves to an entry whose
      identifier is `aid`. */
  predicate AidEquipped(slots: seq<int>, catalog: seq<Accessory>, aid: string)
    ensures AidEquipped(slots, catalog, aid) <==>
      exists i :: 0 <= i < |slots| && Resolves(catalog, slots[i]) && catalog[slots[i]].aid == aid
  {
    if slots == [] then false
    else
      assert forall i :: 1 <= i < |slots| ==> slots[1..][i - 1] == slots[i];
      assert forall i :: 0 <= i < |slots| - 1 ==> slots[1..][i] == slots[i + 1];
      (Resolves(catalog, slots[0]) && catalog[slots[0]].aid == aid) || AidEquipped(slots[1..], catalog, aid)
  }

  /** The position-wise copy of CopyFrom, which zips `dest` with `src`: the
      first min(|dest|, |src|) slots come from `src`, the rest stay. */
  function CopiedFrom(dest: seq<int>, src: seq<int>): (r: seq<int>)
    ensures |r| == |dest|
    ensures forall i :: 0 <= i < |dest| && i < |src| ==> r[i] == src[i]
    ensures forall i :: |src| <= i < |dest| ==> r[i] == dest[i]
  {
    if dest == [] || src == [] then dest
    else
      var rest := CopiedFrom(dest[1..], src[1..]);
      assert forall i :: 1 <= i < |dest| ==> dest[1..][i - 1] == dest[i];
      assert forall i :: 1 <= i < |src| ==> src[1..][i - 1] == src[i];
      [src[0]] + rest
  }

  /** In-range equip: the accessory lands at `index`, every other slot that
      conflicted with its mask is emptied, and every other slot is kept. */
  lemma EquipInRange(slots: seq<int>, catalog: seq<Accessory>, accessory: Accessory, index: nat)
    requires index < |slots|
    ensures var r := Equip(slots, catalog, accessory, index);
      && |r| == |slots|
      && r[index] == accessory.index
      && (forall j :: 0 <= j < |slots| && j != index && Conflicts(catalog, slots[j], accessory.mask) ==> r[j] == Empty)
      && (forall j :: 0 <= j < |slots| && j != index && !Conflicts(catalog, slots[j], accessory.mask) ==> r[j] == slots[j])
  {
  }

  /** Overflow equip (`index` beyond the length): every slot that is empty
      after the conflict pass, including the ones that pass just emptied,
      receives the accessory; every other slot is kept. */
  lemma EquipOverflow(slots: seq<int>, catalog: seq<Accessory>, accessory: Accessory, index: nat)
    requires index > |slots|
    ensures var r := Equip(slots, catalog, accessory, index);
      && |r| == |slots|
      && (forall j :: 0 <= j < |slots| && (slots[j] == Empty || Conflicts(catalog, slots[j], accessory.mask)) ==> r[j] == accessory.index)
      && (forall j :: 0 <= j < |slots| && slots[j] != Empty && !Conflicts(catalog, slots[j], accessory.mask) ==> r[j] == slots[j])
  {
  }

  /** Overflow equip on a table with no free slot and nothing to unequip
      places nothing: the table is unchanged. */
  lemma EquipOverflowFull(slots: seq<int>, catalog: seq<Accessory>, accessory: Accessory, index: nat)
    requires index > |slots|
    requires forall j :: 0 <= j < |slots| ==> slots[j] != Empty && !Conflicts(catalog, slots[j], accessory.mask)
    ensures Equip(slots, catalog, accessory, index) == slots
  {
  }

  /** Exclusivity after an in-range equip: when the accessory's reference
      resolves to an entry with its own mask, slot `index` holds that mask
      and no other occupied slot does. */
  lemma EquipExclusive(slots: seq<int>, catalog: seq<Accessory>, accessory: Accessory, index: nat)
    requires index < |slots|
    requires Resolves(catalog, accessory.index) && catalog[accessory.index].mask == accessory.mask
    ensures var r := Equip(slots, catalog, accessory, index);
      && Conflicts(catalog, r[index], accessory.mask)
      && forall j :: 0 <= j < |r| && j != index && r[j] != Empty ==> !Conflicts(catalog, r[j], accessory.mask)
  {
  }

  /** The same with the sentinel counted: if catalog entry 0 (which Empty
      resolves to) does not have the accessory's mask, slot `index` is the
      only slot of the table that resolves to that mask. */
  lemma EquipExclusiveStrict(slots: seq<int>, catalog: seq<Accessory>, accessory: Accessory, index: nat)
    requires index < |slots|
    requires Resolves(catalog, accessory.index) && catalog[accessory.index].mask == accessory.mask
    requires !Conflicts(catalog, Empty, accessory.mask)
    ensures var r := Equip(slots, catalog, accessory, index);
      forall j :: 0 <= j < |r| ==> (Conflicts(catalog, r[j], accessory.mask) <==> j == index)
  {
  }

  /** Two in-range equips of accessories that share a mask leave exactly one
      slot with that mask: the second one's. */
  lemma EquipTwiceSameMask(slots: seq<int>, catalog: seq<Accessory>, a: Accessory, i: nat, b: Accessory, j: nat)
    requires i < |slots| && j < |slots|
    requires a.mask == b.mask
    requires Resolves(catalog, b.index) && catalog[b.index].mask == b.mask
    requires !Conflicts(catalog, Empty, b.mask)
    ensures var r := Equip(Equip(slots, catalog, a, i), catalog, b, j);
      forall k :: 0 <= k < |r| ==> (Conflicts(catalog, r[k], a.mask) <==> k == j)
  {
  }

  /** Without a break in the hook's overflow loop, one overflow equip of an
      accessory on an empty table fills every slot with it. */
  lemma EquipOverflowFillsEveryEmptySlot(n: nat, catalog: seq<Accessory>, accessory: Accessory, index: nat)
    requires index > n
    ensures Equip(Zeros(n), catalog, accessory, index) == seq(n, _ => accessory.index)
  {
  }

  /** Copying between tables of equal length makes the destination equal to
      the source. */
  lemma CopyEqualLength(dest: seq<int>, src: seq<int>)
    requires |dest| == |src|
    ensures CopiedFrom(dest, src) == src
  {
  }

  /** Copying twice from the same source changes nothing more. */
  lemma CopyIdempotent(dest: seq<int>, src: seq<int>)
    ensures CopiedFrom(CopiedFrom(dest, src), src) == CopiedFrom(dest, src)
  {
  }

  /** A worked case on a sixteen-slot table: equipping A (mask 4) at slot 2
      and then B (also mask 4) at slot 5 unequips A, so only B is equipped. */
  lemma EquipScenario()
    ensures var none := Accessory("none", 0, 0, 0);
      var a := Accessory("A", 4, 2, 1);
      var b := Accessory("B", 4, 2, 2);
      var catalog := [none, a, b];
      var first := Equip(Zeros(16), catalog, a, 2);
      var second := Equip(first, catalog, b, 5);
      && first == Zeros(16)[2 := 1]
      && second == Zeros(16)[5 := 2]
      && !AidEquipped(second, catalog, "A")
      && AidEquipped(second, catalog, "B")
  {
    var none := Accessory("none", 0, 0, 0);
    var a := Accessory("A", 4, 2, 1);
    var b := Accessory("B", 4, 2, 2);
    var catalog := [none, a, b];
    var first := Equip(Zeros(16), catalog, a, 2);
    EquipInRange(Zeros(16), catalog, a, 2);
    assert first == Zeros(16)[2 := 1];
    var second := Equip(first, catalog, b, 5);
    EquipInRange(first, catalog, b, 5);
    assert second == Zeros(16)[5 := 2];
  }

  /** An accessory equipped at an in-range index is then reported as
      equipped, provided its reference names its own catalog entry. */
  lemma EquipThenEquipped(slots: seq<int>, catalog: seq<Accessory>, accessory: Accessory, index: nat)
    requires index < |slots|
    requires Resolves(catalog, accessory.index) && catalog[accessory.index].aid == accessory.aid
    ensures AidEquipped(Equip(slots, catalog, accessory, index), catalog, accessory.aid)
  {
    EquipInRange(slots, catalog, accessory, index);
  }
}
