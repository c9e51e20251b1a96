/** The bit-parallel population count of count_bits, on 32-bit words. */
module PopCount {

  function Half(v: bv32): bv32 {
    v >> 1
  }

  function Bit(v: bv32): nat {
    if v & 1 == 1 then 1 else 0
  }

  /** How many bits of v are set. */
  function Pop(v: bv32): nat
    decreases v
  {
    HalfShrinks(v);
    if v == 0 then 0 else Bit(v) + Pop(Half(v))
  }

  lemma HalfShrinks(v: bv32)
    ensures v != 0 ==> Half(v) < v
  {
  }

  function Pairs(v: bv32): bv32 {
    v - ((v >> 1) & 0x5555_5555)
  }

  function Nibbles(v: bv32): bv32 {
    (v & 0x3333_3333) + ((v >> 2) & 0x3333_3333)
  }

  function ByteSums(w: bv32): bv32 {
    (w + (w >> 4)) & 0x0F0F_0F0F
  }

  function Gather(x: bv32): bv32 {
    (x * 0x0101_0101) >> 24
  }

  /** The count: pairs, nibbles, bytes, and their sum in the top byte. */
  function Swar(v: bv32): bv32 {
    Gather(ByteSums(Nibbles(Pairs(v))))
  }

  // ----- each byte ends up holding its own count -----

  function PairsByAdding(v: bv32): bv32 {
    (v & 0x5555_5555) + ((v >> 1) & 0x5555_5555)
  }

  function ByteCounts(v: bv32): bv32 {
    ByteSums(Nibbles(PairsByAdding(v)))
  }

  /** The count of the lowest byte, bit by bit. */
  function LowByte(v: bv32): bv32 {
    (v & 1) + ((v >> 1) & 1) + ((v >> 2) & 1) + ((v >> 3) & 1) +
    ((v >> 4) & 1) + ((v >> 5) & 1) + ((v >> 6) & 1) + ((v >> 7) & 1)
  }

  lemma PairsAdd(v: bv32)
    ensures Pairs(v) == PairsByAdding(v)
  {
  }

  lemma CountsShift(v: bv32)
    ensures ByteCounts(v) >> 8 == ByteCounts(v >> 8)
  {
  }

  lemma CountsLow(v: bv32)
    ensures ByteCounts(v) & 0xff == LowByte(v)
    ensures LowByte(v) <= 8
  {
  }

  lemma CountsAreSmall(v: bv32)
    ensures ByteCounts(v) & 0xF0F0_F0F0 == 0
  {
  }

  function Shift8(v: bv32): bv32 {
    v >> 8
  }

  function Plus(a: bv32, b: bv32): bv32 {
    a + b
  }

  function SumOfFour(a: bv32, b: bv32, c: bv32, d: bv32): bv32 {
    Plus(Plus(Plus(a, b), c), d)
  }

  function Nat(a: bv32): nat {
    a as nat
  }

  function Low8(v: bv32): bv32 {
    v & 0xff
  }

  lemma SwarGathers(v: bv32)
    ensures Swar(v) == Gather(ByteCounts(v))
  {
    hide Gather, ByteSums, Nibbles, Pairs, PairsByAdding;
    PairsAdd(v);
  }

  lemma GatherBytes(x: bv32)
    requires x & 0xF0F0_F0F0 == 0
    ensures Gather(x) == SumOfFour(Low8(x), Low8(Shift8(x)), Low8(Shift8(Shift8(x))), Low8(Shift8(Shift8(Shift8(x)))))
  {
  }

  lemma GatherCounts(v: bv32)
    ensures var x := ByteCounts(v);
            Swar(v) == SumOfFour(Low8(x), Low8(Shift8(x)), Low8(Shift8(Shift8(x))), Low8(Shift8(Shift8(Shift8(x)))))
  {
    hide Swar, Gather, ByteCounts, Shift8, Low8, Plus;
    SwarGathers(v);
    CountsAreSmall(v);
    GatherBytes(ByteCounts(v));
  }

  lemma CountsOfByte(v: bv32)
    ensures Shift8(ByteCounts(v)) == ByteCounts(Shift8(v))
    ensures Low8(ByteCounts(v)) == LowByte(v)
  {
    CountsShift(v);
    CountsLow(v);
  }

  lemma SwarByBytes(v: bv32)
    ensures Swar(v) == SumOfFour(LowByte(v), LowByte(Shift8(v)), LowByte(Shift8(Shift8(v))),
                                 LowByte(Shift8(Shift8(Shift8(v)))))
  {
    hide ByteCounts, LowByte, Shift8, Swar, Low8, Plus;
    GatherCounts(v);
    CountsOfByte(v);
    CountsOfByte(Shift8(v));
    CountsOfByte(Shift8(Shift8(v)));
    CountsOfByte(Shift8(Shift8(Shift8(v))));
  }

  // ----- as numbers -----

  lemma NatOfPlus(x: bv32, y: bv32)
    requires x <= 24 && y <= 8
    ensures Nat(Plus(x, y)) == Nat(x) + Nat(y) && Plus(x, y) <= 32
    ensures x <= 16 ==> Plus(x, y) <= 24
    ensures x <= 8 ==> Plus(x, y) <= 16
    ensures Nat(x) <= 24 && Nat(y) <= 8
  {
  }

  lemma PopStep(v: bv32)
    ensures Pop(v) == Bit(v) + Pop(Half(v))
  {
    if v == 0 { assert Half(v) == 0; }
  }

  /** The bits of the lowest byte. */
  function LowBits(v: bv32): nat {
    Bit(v) + Bit(Half(v)) + Bit(Half(Half(v))) + Bit(Half(Half(Half(v)))) + HighNibbleBits(Half(Half(Half(Half(v)))))
  }

  function HighNibbleBits(v: bv32): nat {
    Bit(v) + Bit(Half(v)) + Bit(Half(Half(v))) + Bit(Half(Half(Half(v))))
  }

  lemma PopNibble(v: bv32)
    ensures Pop(v) == HighNibbleBits(v) + Pop(Half(Half(Half(Half(v)))))
  {
    hide Pop, Bit, Half;
    PopStep(v);
    PopStep(Half(v));
    PopStep(Half(Half(v)));
    PopStep(Half(Half(Half(v))));
  }

  lemma EightHalves(v: bv32)
    ensures Half(Half(Half(Half(Half(Half(Half(Half(v)))))))) == Shift8(v)
  {
  }

  lemma PopEight(v: bv32)
    ensures Pop(v) == LowBits(v) + Pop(Shift8(v))
  {
    hide Pop, Bit, Half, Shift8;
    PopNibble(v);
    PopNibble(Half(Half(Half(Half(v)))));
    EightHalves(v);
  }

  function One(b: bv32): nat {
    if b == 1 then 1 else 0
  }

  lemma NatOfBit(x: bv32, b: bv32)
    requires x <= 31 && b <= 1
    ensures Nat(Plus(x, b)) == Nat(x) + One(b) && Plus(x, b) <= x + 1
  {
  }

  lemma EightBits(b0: bv32, b1: bv32, b2: bv32, b3: bv32, b4: bv32, b5: bv32, b6: bv32, b7: bv32)
    requires b0 <= 1 && b1 <= 1 && b2 <= 1 && b3 <= 1 && b4 <= 1 && b5 <= 1 && b6 <= 1 && b7 <= 1
    ensures (b0 + b1 + b2 + b3 + b4 + b5 + b6 + b7) as nat ==
            One(b0) + One(b1) + One(b2) + One(b3) + One(b4) + One(b5) + One(b6) + One(b7)
  {
    NatOfBit(0, b0);
    NatOfBit(b0, b1);
    NatOfBit(b0 + b1, b2);
    NatOfBit(b0 + b1 + b2, b3);
    NatOfBit(b0 + b1 + b2 + b3, b4);
    NatOfBit(b0 + b1 + b2 + b3 + b4, b5);
    NatOfBit(b0 + b1 + b2 + b3 + b4 + b5, b6);
    NatOfBit(b0 + b1 + b2 + b3 + b4 + b5 + b6, b7);
  }

  lemma LowByteIsCount(v: bv32)
    ensures Nat(LowByte(v)) == LowBits(v)
  {
    EightBits(v & 1, (v >> 1) & 1, (v >> 2) & 1, (v >> 3) & 1, (v >> 4) & 1, (v >> 5) & 1, (v >> 6) & 1, (v >> 7) & 1);
    HalvesAreShifts(v);
  }

  lemma HalvesAreShifts(v: bv32)
    ensures (v >> 1) >> 1 == v >> 2 && (v >> 2) >> 1 == v >> 3 && (v >> 3) >> 1 == v >> 4
    ensures (v >> 4) >> 1 == v >> 5 && (v >> 5) >> 1 == v >> 6 && (v >> 6) >> 1 == v >> 7
  {
  }

  lemma FourShifts(v: bv32)
    ensures Shift8(Shift8(Shift8(Shift8(v)))) == 0
  {
  }

  lemma PopByBytes(v: bv32)
    ensures Pop(v) == Nat(LowByte(v)) + Nat(LowByte(Shift8(v))) + Nat(LowByte(Shift8(Shift8(v)))) +
            Nat(LowByte(Shift8(Shift8(Shift8(v)))))
  {
    hide LowByte, LowBits, Shift8, Nat;
    PopEight(v);
    PopEight(Shift8(v));
    PopEight(Shift8(Shift8(v)));
    PopEight(Shift8(Shift8(Shift8(v))));
    FourShifts(v);
    LowByteIsCount(v);
    LowByteIsCount(Shift8(v));
    LowByteIsCount(Shift8(Shift8(v)));
    LowByteIsCount(Shift8(Shift8(Shift8(v))));
  }

  /** The masked additions and the multiplication count the bits. */
  lemma SwarIsPop(v: bv32)
    ensures Nat(Swar(v)) == Pop(v) <= 32
  {
    hide LowByte, Pop, Swar, Shift8, Nat, Plus;
    SwarByBytes(v);
    PopByBytes(v);
    FourBytes(LowByte(v), LowByte(Shift8(v)), LowByte(Shift8(Shift8(v))), LowByte(Shift8(Shift8(Shift8(v))))) by {
      CountsLow(v);
      CountsLow(Shift8(v));
      CountsLow(Shift8(Shift8(v)));
      CountsLow(Shift8(Shift8(Shift8(v))));
    }
  }

  lemma FourBytes(a: bv32, b: bv32, c: bv32, d: bv32)
    requires a <= 8 && b <= 8 && c <= 8 && d <= 8
    ensures Nat(Plus(Plus(Plus(a, b), c), d)) == Nat(a) + Nat(b) + Nat(c) + Nat(d) <= 32
  {
    hide Nat, Plus;
    NatOfPlus(a, b);
    NatOfPlus(Plus(a, b), c);
    NatOfPlus(Plus(Plus(a, b), c), d);
  }

  // ----- clearing bits -----

  function Clear(v: bv32, t: bv32): bv32 {
    v & !t
  }

  predicate Meet(v: bv32, t: bv32) {
    v & t != 0
  }

  lemma ClearHalf(v: bv32, t: bv32)
    ensures Half(Clear(v, t)) == Clear(Half(v), Half(t))
  {
  }

  lemma ClearLowBit(v: bv32, t: bv32)
    ensures Bit(Clear(v, t)) <= Bit(v)
    ensures v & 1 == 1 && t & 1 == 1 ==> Bit(Clear(v, t)) < Bit(v)
  {
    assert Clear(v, t) & 1 == (v & 1) & !(t & 1);
  }

  lemma MeetHalf(v: bv32, t: bv32)
    ensures Meet(v, t) ==> Meet(Half(v), Half(t)) || (v & 1 == 1 && t & 1 == 1)
    ensures v == 0 ==> Clear(v, t) == 0 && !Meet(v, t)
  {
  }

  /** Clearing bits never adds to the count, and takes from it when one of them was set. */
  lemma {:induction false} ClearingCounts(v: bv32, t: bv32)
    ensures Pop(Clear(v, t)) <= Pop(v)
    ensures Meet(v, t) ==> Pop(Clear(v, t)) < Pop(v)
    ensures !Meet(v, t) ==> Clear(v, t) == v
    decreases v
  {
    hide Pop, Bit, Half, Clear, Meet;
    ClearHalf(v, t);
    ClearLowBit(v, t);
    MeetHalf(v, t);
    MissedBits(v, t);
    if v != 0 {
      HalfShrinks(v);
      PopStep(v);
      PopStep(Clear(v, t));
      ClearingCounts(Half(v), Half(t));
    }
  }

  lemma MissedBits(v: bv32, t: bv32)
    ensures !Meet(v, t) ==> Clear(v, t) == v
  {
  }
}
