/** Eight map bytes to a byte: `dst[i >> 3] |= 1 << (i & 7)` and its readers. */
module BitPack {

  function Mask(k: nat): bv8
    requires k < 8
  {
    match k
    case 0 => 1
    case 1 => 2
    case 2 => 4
    case 3 => 8
    case 4 => 16
    case 5 => 32
    case 6 => 64
    case 7 => 128
  }

  /** The table above is `1 << k`. */
  lemma MaskIsShift(k: nat)
    requires k < 8
    ensures Mask(k) == (1 as bv8) << k
  {
  }

  predicate BitOf(b: bv8, k: nat)
    requires k < 8
  {
    b & Mask(k) != 0
  }

  function SetBit(b: bv8, k: nat): bv8
    requires k < 8
  {
    b | Mask(k)
  }

  function ClearBits(b: bv8, c: bv8): bv8 {
    b & !c
  }

  predicate Bit(m: seq<bv8>, i: nat)
    requires i < 8 * |m|
  {
    BitOf(m[i / 8], i % 8)
  }

  lemma SetBitLaw(b: bv8, k: nat, j: nat)
    requires k < 8 && j < 8
    ensures BitOf(SetBit(b, k), j) <==> j == k || BitOf(b, j)
  {
  }

  lemma ClearBitsLaw(b: bv8, c: bv8, j: nat)
    requires j < 8
    ensures BitOf(ClearBits(b, c), j) <==> BitOf(b, j) && !BitOf(c, j)
    ensures c == 0 ==> ClearBits(b, c) == b
  {
  }

  lemma AllOrNothing(j: nat)
    requires j < 8
    ensures BitOf(255, j) && !BitOf(0, j)
  {
  }
}
