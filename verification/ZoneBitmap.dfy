/** A bitmap of zones packed eight to a byte, as the MAP_*_BIT macros use it. */
module ZoneBitmap {
  /** The mask of one bit of a byte. */
  function Mask(bit: nat): bv8
    requires bit < 8
  {
    1 << bit
  }

  lemma MaskBits(bit: nat)
    requires bit < 8
    ensures Mask(bit) == match bit case 0 => 1 case 1 => 2 case 2 => 4 case 3 => 8
                                   case 4 => 16 case 5 => 32 case 6 => 64 case 7 => 128
  {
    match bit {
      case 0 => case 1 => case 2 => case 3 => case 4 => case 5 => case 6 => case 7 =>
    }
  }

  /** The masks of two bits overlap only when the bits are the same. */
  lemma MasksApart(bit: nat, other: nat)
    requires bit < 8 && other < 8
    ensures Mask(bit) & Mask(other) == if bit == other then Mask(bit) else 0
    ensures Mask(bit) != 0
  {
    MaskBits(bit);
    MaskBits(other);
  }

  /** Setting or clearing the bits of one mask leaves a disjoint mask's bits alone. */
  lemma MaskWrite(pack: bv8, mask: bv8, other: bv8)
    ensures mask & other == 0 ==> (pack | mask) & other == pack & other && (pack & !mask) & other == pack & other
    ensures (pack | mask) & mask == mask && (pack & !mask) & mask == 0
  {
  }

  function GetBit(pack: bv8, bit: nat): bool
    requires bit < 8
  {
    pack & Mask(bit) != 0
  }

  function SetBit(pack: bv8, bit: nat): bv8
    requires bit < 8
  {
    pack | Mask(bit)
  }

  function ClearBit(pack: bv8, bit: nat): bv8
    requires bit < 8
  {
    pack & !Mask(bit)
  }

  /** Writing one bit of a byte changes that bit and no other. */
  lemma BitWrite(pack: bv8, bit: nat, other: nat)
    requires bit < 8 && other < 8
    ensures GetBit(SetBit(pack, bit), other) == (other == bit || GetBit(pack, other))
    ensures GetBit(ClearBit(pack, bit), other) == (other != bit && GetBit(pack, other))
  {
    MasksApart(bit, other);
    MaskWrite(pack, Mask(bit), Mask(other));
  }

  /** Bit k of the map, MAP_GET_BIT. */
  function BitAt(bytes: seq<bv8>, k: nat): bool
    requires k / 8 < |bytes|
  {
    GetBit(bytes[k / 8], k % 8)
  }

  /** The bits of a byte count from its lowest one, and the bytes from the front. */
  lemma BitAtIs(bytes: seq<bv8>, i: nat, bit: nat)
    requires i < |bytes| && bit < 8
    ensures BitAt(bytes, 8 * i + bit) <==> (bytes[i] >> bit) & 1 == 1
  {
    assert (8 * i + bit) / 8 == i && (8 * i + bit) % 8 == bit;
    BitIs(bytes[i], bit);
  }

  lemma BitIs(pack: bv8, bit: nat)
    requires bit < 8
    ensures GetBit(pack, bit) <==> (pack >> bit) & 1 == 1
  {
    MaskBits(bit);
    match bit {
      case 0 => case 1 => case 2 => case 3 => case 4 => case 5 => case 6 => case 7 =>
    }
  }

  function WithBitSet(bytes: seq<bv8>, k: nat): (r: seq<bv8>)
    requires k / 8 < |bytes|
    ensures |r| == |bytes|
  {
    bytes[k / 8 := SetBit(bytes[k / 8], k % 8)]
  }

  function WithBitCleared(bytes: seq<bv8>, k: nat): (r: seq<bv8>)
    requires k / 8 < |bytes|
    ensures |r| == |bytes|
  {
    bytes[k / 8 := ClearBit(bytes[k / 8], k % 8)]
  }

  lemma BitAtWrite(bytes: seq<bv8>, k: nat, j: nat)
    requires k / 8 < |bytes| && j / 8 < |bytes|
    ensures BitAt(WithBitSet(bytes, k), j) == (j == k || BitAt(bytes, j))
    ensures BitAt(WithBitCleared(bytes, k), j) == (j != k && BitAt(bytes, j))
  {
    var byte, bit, i, other := k / 8, k % 8, j / 8, j % 8;
    assert i == byte && other == bit <==> j == k;
    BitWrite(bytes[byte], bit, other);
    if i == byte {
      assert WithBitSet(bytes, k)[i] == SetBit(bytes[byte], bit);
      assert WithBitCleared(bytes, k)[i] == ClearBit(bytes[byte], bit);
    } else {
      assert WithBitSet(bytes, k)[i] == bytes[i] && WithBitCleared(bytes, k)[i] == bytes[i];
    }
  }

  /** The first n bits: which zones are in use. */
  ghost function ToBits(bytes: seq<bv8>, n: nat): (r: seq<bool>)
    requires n <= 8 * |bytes|
    ensures |r| == n
  {
    if n == 0 then [] else ToBits(bytes, n - 1) + [BitAt(bytes, n - 1)]
  }

  lemma {:induction false} ToBitsAt(bytes: seq<bv8>, n: nat, k: nat)
    requires k < n <= 8 * |bytes|
    ensures ToBits(bytes, n)[k] == BitAt(bytes, k)
  {
    if k < n - 1 {
      ToBitsAt(bytes, n - 1, k);
    }
  }

  /** On the zones, MAP_SET_BIT and MAP_UNSET_BIT are point updates. */
  lemma ToBitsWrite(bytes: seq<bv8>, n: nat, k: nat)
    requires k < n <= 8 * |bytes|
    ensures ToBits(WithBitSet(bytes, k), n) == ToBits(bytes, n)[k := true]
    ensures ToBits(WithBitCleared(bytes, k), n) == ToBits(bytes, n)[k := false]
  {
    var set1, clear1 := WithBitSet(bytes, k), WithBitCleared(bytes, k);
    forall j | 0 <= j < n
      ensures ToBits(set1, n)[j] == (j == k || ToBits(bytes, n)[j])
      ensures ToBits(clear1, n)[j] == (j != k && ToBits(bytes, n)[j])
    {
      ToBitsAt(set1, n, j);
      ToBitsAt(clear1, n, j);
      ToBitsAt(bytes, n, j);
      BitAtWrite(bytes, k, j);
    }
  }
}
