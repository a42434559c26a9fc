/** Accessory definitions (the catalog entries, `AccessoryData`) and the
    derivation of an accessory's kind from its mask done by the OnBuild hook. */
module AccessoryKinds {

  /** The largest of the four original single-bit masks (Body 1, Head 2,
      Face 4, Back 8); masks up to it keep the kind the game assigned. */
  const LegacyMaskLimit := 8

  /** The kind given to any mask above LegacyMaskLimit that is not a
      recognised single bit. */
  const DefaultKind := 1

  /** The lowest and highest bit positions the hook recognises (16 to 65536). */
  const LowestNewBit := 4
  const HighestNewBit := 16

  /** A catalog entry as the slot table sees it once it is built: its
      identifier, its mask, its kind and its own position in the catalog
      (`parent.index`), the value a slot stores to reference it. */
  datatype Accessory = Accessory(aid: string, mask: int, kind: int, index: int)

  function Pow2(e: nat): (p: nat)
    ensures p >= 1
  {
    if e == 0 then 1 else 2 * Pow2(e - 1)
  }

  lemma {:induction false} Pow2Monotone(a: nat, b: nat)
    requires a < b
    ensures Pow2(a) < Pow2(b)
  {
    if a + 1 < b {
      Pow2Monotone(a, b - 1);
    }
  }

  lemma {:induction false} Pow2Injective(a: nat, b: nat)
    requires Pow2(a) == Pow2(b)
    ensures a == b
  {
    if a < b {
      Pow2Monotone(a, b);
    } else if b < a {
      Pow2Monotone(b, a);
    }
  }

  /** The kind OnBuild leaves on a definition whose mask is `mask`, where
      `baseKind` is the kind the game's original routine already set. */
  function KindFor(mask: int, baseKind: int): (k: int)
    ensures mask <= LegacyMaskLimit ==> k == baseKind
    ensures mask > LegacyMaskLimit ==> k == DefaultKind || LowestNewBit <= k <= HighestNewBit
    ensures mask > LegacyMaskLimit && k != DefaultKind ==> mask == Pow2(k)
  {
    if mask > LegacyMaskLimit then
      match mask
      case 16 => 4
      case 32 => 5
      case 64 => 6
      case 128 => 7
      case 256 => 8
      case 512 => 9
      case 1024 => 10
      case 2048 => 11
      case 4096 => 12
      case 8192 => 13
      case 16384 => 14
      case 32768 => 15
      case 65536 => 16
      case _ => DefaultKind
    else
      baseKind
  }

  /** Every bit position OnBuild recognises gives one of the thirteen mask
      values its table lists. */
  lemma {:induction false} Pow2InTable(e: nat)
    requires LowestNewBit <= e <= HighestNewBit
    ensures var p := Pow2(e);
      || (e == 4 && p == 16) || (e == 5 && p == 32) || (e == 6 && p == 64)
      || (e == 7 && p == 128) || (e == 8 && p == 256) || (e == 9 && p == 512)
      || (e == 10 && p == 1024) || (e == 11 && p == 2048) || (e == 12 && p == 4096)
      || (e == 13 && p == 8192) || (e == 14 && p == 16384) || (e == 15 && p == 32768)
      || (e == 16 && p == 65536)
  {
    if e > LowestNewBit {
      Pow2InTable(e - 1);
    }
  }

  /** A single-bit mask 2^e with 4 <= e <= 16 gets the kind e, whatever kind
      the game assigned before. */
  lemma KindOfHighBit(e: nat, baseKind: int)
    requires LowestNewBit <= e <= HighestNewBit
    ensures KindFor(Pow2(e), baseKind) == e
  {
    Pow2InTable(e);
    var k := KindFor(Pow2(e), baseKind);
    Pow2Injective(k, e);
  }

  /** Any other mask above 8 falls back to the default kind. */
  lemma KindFallback(mask: int, baseKind: int)
    requires mask > LegacyMaskLimit
    requires forall e :: LowestNewBit <= e <= HighestNewBit ==> mask != Pow2(e)
    ensures KindFor(mask, baseKind) == DefaultKind
  {
  }

  /** The OnBuild hook acts on one catalog entry while the game builds the
      catalog: after the original routine has set `kind`, it rewrites `kind`
      from `mask` and touches no other field. The catalog that the slot
      table reads holds these entries as `Accessory` values (`Entry`). */
  class AccessoryData {
    var aid: string
    var mask: int
    var kind: int
    var index: int

    /** The entry as the original routine leaves it, before the hook runs. */
    constructor (aid: string, mask: int, kind: int, index: int)
      ensures this.aid == aid && this.mask == mask && this.kind == kind && this.index == index
    {
      this.aid, this.mask, this.kind, this.index := aid, mask, kind, index;
    }

    method OnBuild()
      modifies this`kind
      ensures kind == KindFor(mask, old(kind))
      ensures Entry() == old(Entry()).(kind := KindFor(mask, old(kind)))
    {
      if mask > LegacyMaskLimit {
        match mask {
          case 16 => kind := 4;
          case 32 => kind := 5;
          case 64 => kind := 6;
          case 128 => kind := 7;
          case 256 => kind := 8;
          case 512 => kind := 9;
          case 1024 => kind := 10;
          case 2048 => kind := 11;
          case 4096 => kind := 12;
          case 8192 => kind := 13;
          case 16384 => kind := 14;
          case 32768 => kind := 15;
          case 65536 => kind := 16;
          case _ => kind := DefaultKind;
        }
      }
    }

    /** The catalog value of this entry. */
    function Entry(): Accessory
      reads this
    {
      Accessory(aid, mask, kind, index)
    }
  }
}
