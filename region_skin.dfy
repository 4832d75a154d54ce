/**
  PseudoInstanceRegion: a copy region shows the client its base dungeon's
  zone files.  Copies are numbered base * 10 + n, so the skin is the region
  id divided by ten, cast to a ushort; it is computed once, when the region
  is constructed, and read unchanged afterwards.
 */
module PseudoInstanceRegion {
  import opened Numerics

  /** C#'s unchecked (ushort) cast: the low 16 bits of the value. */
  function ToUInt16(x: int): (r: uint16)
    ensures (x - r) % TWO_TO_THE_16 == 0
    ensures 0 <= x < TWO_TO_THE_16 ==> r == x
  {
    x % TWO_TO_THE_16
  }

  /** The constructor's derivation: the id divided by ten, then cast. */
  function SkinOf(regionId: uint16): (skin: uint16)
    ensures 10 * skin <= regionId < 10 * skin + 10
  {
    ToUInt16(regionId / 10)
  }

  /** A constructed copy region: its id, and the skin fixed at construction. */
  datatype Region = Region(id: uint16, skinId: uint16)
  {
    /** The Skin getter returns the stored value. */
    function Skin(): uint16 {
      skinId
    }
  }

  /** The constructor stores the id and the skin derived from it. */
  function Construct(regionId: uint16): Region {
    Region(regionId, SkinOf(regionId))
  }

  /** Every copy base * 10 + n of a base has that base's skin. */
  lemma CopiesShareBaseSkin(base: uint16, n: int)
    requires 0 <= n < 10 && base * 10 + n < TWO_TO_THE_16
    ensures SkinOf(base * 10 + n) == base
  {
  }

  /** The documented example: regions 3970, 3971 and 3972 all show skin 397. */
  lemma CryptCopiesShowSkin397()
    ensures Construct(3970).Skin() == 397 && Construct(3971).Skin() == 397 && Construct(3972).Skin() == 397
  {
    CopiesShareBaseSkin(397, 0);
    CopiesShareBaseSkin(397, 1);
    CopiesShareBaseSkin(397, 2);
  }

  /** The quotient always fits a ushort, so the cast never truncates. */
  lemma SkinCastNeverTruncates(regionId: uint16)
    ensures regionId / 10 < TWO_TO_THE_16
    ensures SkinOf(regionId) == regionId / 10
    ensures SkinOf(regionId) <= 6553 && SkinOf(regionId) <= regionId
    ensures Construct(regionId).Skin() == SkinOf(regionId)
  {
  }
}
