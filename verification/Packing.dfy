/** An address and a weight in one big integer: 160 bits above 88 bits. */
module Packing {
  import opened Bits
  import opened Wrappers

  const ADDRESS_BITS: nat := 160
  const WEIGHT_BITS: nat := 88
  const TWO_88: nat := 0x1_0000_0000_0000_0000_0000_00
  const TWO_160: nat := 0x1_0000_0000_0000_0000_0000_0000_0000_0000_0000_0000
  const TWO_248: nat := 0x1_0000_0000_0000_0000_0000_0000_0000_0000_0000_0000_0000_0000_0000_0000_0000_00

  /** An Ethereum address: 20 bytes. */
  type Address = a: nat | a < TWO_160

  function BitLen(x: nat): nat {
    if x == 0 then 0 else 1 + BitLen(x / 2)
  }

  /** None stands for the panic on a value that is too wide. */
  function PackAddressWeight(address: nat, weight: nat): Option<nat> {
    if BitLen(address) > ADDRESS_BITS || BitLen(weight) > WEIGHT_BITS then None
    else Some(Or(Shl(address, WEIGHT_BITS), weight))
  }

  function UnpackAddressWeight(packed: nat): (nat, nat) {
    var weightMask := Shl(1, WEIGHT_BITS) - 1;
    (Shr(packed, WEIGHT_BITS), And(packed, weightMask))
  }

  /** The number a pair stands for. */
  function Packed(address: nat, weight: nat): nat {
    address * TWO_88 + weight
  }

  lemma {:induction false} BitLenBound(x: nat, k: nat)
    ensures BitLen(x) <= k <==> x < Pow2(k)
  {
    if x == 0 || k == 0 {
    } else {
      BitLenBound(x / 2, k - 1);
    }
  }

  lemma Widths()
    ensures Pow2(WEIGHT_BITS) == TWO_88 && Pow2(ADDRESS_BITS) == TWO_160
  {
    assert Pow2(8) == 0x100;
    PowerSum(8, 0x100, 8, 0x100);
    PowerSum(16, 0x1_0000, 16, 0x1_0000);
    PowerSum(32, 0x1_0000_0000, 8, 0x100);
    PowerSum(40, 0x1_0000_0000_00, 40, 0x1_0000_0000_00);
    PowerSum(80, 0x1_0000_0000_0000_0000_0000, 8, 0x100);
    PowerSum(80, 0x1_0000_0000_0000_0000_0000, 80, 0x1_0000_0000_0000_0000_0000);
  }

  /** Packing succeeds exactly when both parts fit, and shift-and-or is then multiply-and-add. */
  lemma PackIsArithmetic(address: nat, weight: nat)
    ensures PackAddressWeight(address, weight) ==
            if address < TWO_160 && weight < TWO_88 then Some(Packed(address, weight)) else None
  {
    Widths();
    BitLenBound(address, ADDRESS_BITS);
    BitLenBound(weight, WEIGHT_BITS);
    if weight < TWO_88 { OrDisjoint(address, weight, WEIGHT_BITS); }
  }

  /** The widths in numbers: 160 bits of address above 88 bits of weight. */
  lemma PackedWidths(address: nat, weight: nat)
    ensures PackAddressWeight(address, weight) ==
            if address < Pow2(160) && weight < Pow2(88) then Some(address * Pow2(88) + weight) else None
    ensures TWO_88 == Pow2(88) && TWO_160 == Pow2(160) && TWO_248 == Pow2(248)
  {
    Widths();
    PackIsArithmetic(address, weight);
    PowerSum(160, TWO_160, 88, TWO_88);
  }

  lemma UnpackIsArithmetic(packed: nat)
    ensures UnpackAddressWeight(packed) == (packed / TWO_88, packed % TWO_88)
  {
    Widths();
    ShrIsDiv(packed, WEIGHT_BITS);
    AndMask(packed, WEIGHT_BITS);
  }

  /** Mask-and-shift undoes packing. */
  lemma UnpackPacked(address: nat, weight: nat)
    requires weight < TWO_88
    ensures UnpackAddressWeight(Packed(address, weight)) == (address, weight)
  {
    UnpackIsArithmetic(Packed(address, weight));
  }

  /** Packing undoes mask-and-shift, on everything of 248 bits. */
  lemma PackUnpacked(packed: nat)
    requires packed < TWO_248
    ensures var (address, weight) := UnpackAddressWeight(packed);
            PackAddressWeight(address, weight) == Some(packed)
  {
    UnpackIsArithmetic(packed);
    PackIsArithmetic(packed / TWO_88, packed % TWO_88);
  }

  /** Packed values are below 2^248, tell their pairs apart, and are zero for the zero pair only. */
  lemma PackedInjective(a: Address, w: nat, b: Address, v: nat)
    requires w < TWO_88 && v < TWO_88
    ensures Packed(a, w) < TWO_248
    ensures Packed(a, w) == Packed(b, v) <==> a == b && w == v
    ensures Packed(a, w) == 0 <==> a == 0 && w == 0
  {
  }

  lemma HostPackingInjective(a: nat, w: nat, b: nat, v: nat)
    requires PackAddressWeight(a, w).Some? && PackAddressWeight(a, w) == PackAddressWeight(b, v)
    ensures a == b && w == v
  {
    PackIsArithmetic(a, w);
    PackIsArithmetic(b, v);
    PackedInjective(a, w, b, v);
  }
}
