/** khash's capacity arithmetic: the `kroundup32` bit trick and the 0.77 load bound. */
module RoundUp {
  import opened Probe

  const CEILING: nat := 0x8000_0000

  /** `--x, x|=x>>1, x|=x>>2, x|=x>>4, x|=x>>8, x|=x>>16, ++x` on 32-bit words. */
  function KRoundUp32(x: bv32): bv32 {
    var a := x - 1;
    var b := a | (a >> 1);
    var c := b | (b >> 2);
    var d := c | (c >> 4);
    var e := d | (d >> 8);
    var f := e | (e >> 16);
    f + 1
  }

  /** The least power of two not below x, or 0 when that does not fit in 32 bits. */
  lemma KRoundUp32Meaning(x: bv32)
    ensures var r := KRoundUp32(x);
            if 1 <= x <= 0x8000_0000
            then r >= x && r >> 1 < x && r != 0 && r & (r - 1) == 0
            else r == 0
  {
  }

  lemma SingleBit(r: bv32)
    requires r != 0 && r & (r - 1) == 0
    ensures r in {0x1, 0x2, 0x4, 0x8, 0x10, 0x20, 0x40, 0x80, 0x100, 0x200, 0x400, 0x800,
                  0x1000, 0x2000, 0x4000, 0x8000, 0x1_0000, 0x2_0000, 0x4_0000, 0x8_0000,
                  0x10_0000, 0x20_0000, 0x40_0000, 0x80_0000, 0x100_0000, 0x200_0000,
                  0x400_0000, 0x800_0000, 0x1000_0000, 0x2000_0000, 0x4000_0000, 0x8000_0000}
  {
  }

  lemma Powers()
    ensures Pow2(0) == 0x1 && Pow2(1) == 0x2 && Pow2(2) == 0x4 && Pow2(3) == 0x8
    ensures Pow2(4) == 0x10 && Pow2(5) == 0x20 && Pow2(6) == 0x40 && Pow2(7) == 0x80
    ensures Pow2(8) == 0x100 && Pow2(9) == 0x200 && Pow2(10) == 0x400 && Pow2(11) == 0x800
    ensures Pow2(12) == 0x1000 && Pow2(13) == 0x2000 && Pow2(14) == 0x4000 && Pow2(15) == 0x8000
    ensures Pow2(16) == 0x1_0000 && Pow2(17) == 0x2_0000 && Pow2(18) == 0x4_0000
    ensures Pow2(19) == 0x8_0000 && Pow2(20) == 0x10_0000 && Pow2(21) == 0x20_0000
    ensures Pow2(22) == 0x40_0000 && Pow2(23) == 0x80_0000 && Pow2(24) == 0x100_0000
    ensures Pow2(25) == 0x200_0000 && Pow2(26) == 0x400_0000 && Pow2(27) == 0x800_0000
    ensures Pow2(28) == 0x1000_0000 && Pow2(29) == 0x2000_0000 && Pow2(30) == 0x4000_0000
    ensures Pow2(31) == 0x8000_0000
  {
  }

  /** The bucket count kh_resize settles on for a request. */
  function Capacity(request: bv32): (n: nat)
    ensures 4 <= n <= CEILING && IsPow2(n)
  {
    var r := KRoundUp32(request);
    KRoundUp32Meaning(request);
    CapacityIsPower(r);
    if r as nat < 4 then 4 else r as nat
  }

  lemma CapacityIsPower(r: bv32)
    requires r == 0 || (r != 0 && r & (r - 1) == 0)
    ensures r as nat <= CEILING
    ensures r as nat >= 4 ==> IsPow2(r as nat)
    ensures IsPow2(4)
  {
    Powers();
    if r != 0 { SingleBit(r); }
  }

  /** `(khint_t)(n * 0.77 + 0.5)`. */
  function Upper(n: nat): nat {
    (77 * n + 50) / 100
  }

  lemma Pow2Monotone(a: nat, b: nat)
    requires a <= b
    ensures Pow2(a) <= Pow2(b)
  {
  }

  lemma ThirtyCapacities(n: nat)
    requires IsPow2(n) && 4 <= n <= CEILING
    ensures n in {0x4, 0x8, 0x10, 0x20, 0x40, 0x80, 0x100, 0x200, 0x400, 0x800, 0x1000, 0x2000,
                  0x4000, 0x8000, 0x1_0000, 0x2_0000, 0x4_0000, 0x8_0000, 0x10_0000, 0x20_0000,
                  0x40_0000, 0x80_0000, 0x100_0000, 0x200_0000, 0x400_0000, 0x800_0000,
                  0x1000_0000, 0x2000_0000, 0x4000_0000, 0x8000_0000}
  {
    Powers();
    var m: nat :| n == Pow2(m);
    if m > 31 { Pow2Monotone(32, m); }
    if m < 2 { Pow2Monotone(m, 1); }
  }

  /** A request for one bucket fewer than a power of two keeps it; one more doubles it,
      and the double of 2^31 is 0 on 32 bits. */
  lemma RoundUpNeighbours(x: bv32)
    requires x & (x - 1) == 0 && x >= 4
    ensures KRoundUp32(x - 1) == x && KRoundUp32(x + 1) == x + x
  {
  }

  predicate FitsWord(n: nat) {
    && n <= CEILING
    && var x := n as bv32;
       && x >= 4 && x & (x - 1) == 0 && x as nat == n
       && (x + x) as nat == if n == CEILING then 0 else 2 * n
  }

  lemma FitsWordTable()
    ensures FitsWord(0x4) && FitsWord(0x8) && FitsWord(0x10) && FitsWord(0x20) && FitsWord(0x40)
    ensures FitsWord(0x80) && FitsWord(0x100) && FitsWord(0x200) && FitsWord(0x400) && FitsWord(0x800)
    ensures FitsWord(0x1000) && FitsWord(0x2000) && FitsWord(0x4000) && FitsWord(0x8000) && FitsWord(0x1_0000)
    ensures FitsWord(0x2_0000) && FitsWord(0x4_0000) && FitsWord(0x8_0000) && FitsWord(0x10_0000) && FitsWord(0x20_0000)
    ensures FitsWord(0x40_0000) && FitsWord(0x80_0000) && FitsWord(0x100_0000) && FitsWord(0x200_0000) &&
            FitsWord(0x400_0000)
    ensures FitsWord(0x800_0000) && FitsWord(0x1000_0000) && FitsWord(0x2000_0000) && FitsWord(0x4000_0000) &&
            FitsWord(0x8000_0000)
  {
  }

  lemma WordOfPower(n: nat)
    requires IsPow2(n) && 4 <= n <= CEILING
    ensures FitsWord(n)
  {
    hide FitsWord;
    FitsWordTable();
    ThirtyCapacities(n);
  }

  /** So kh_put's two requests mean "same size" and "double", up to the 2^31 ceiling. */
  lemma CapacityOfNeighbours(n: nat)
    requires IsPow2(n) && 4 <= n <= CEILING
    ensures Capacity((n as bv32) - 1) == n
    ensures Capacity((n as bv32) + 1) == if n == CEILING then 4 else 2 * n
  {
    hide KRoundUp32;
    WordOfPower(n);
    RoundUpNeighbours(n as bv32);
  }

  lemma FirstCapacity()
    ensures Capacity(1) == 4 && Upper(4) == 3
  {
  }

  lemma UpperBounds(n: nat)
    requires n >= 4
    ensures 0 < Upper(n) < n && n <= 2 * Upper(n) && Upper(n) < Upper(2 * n)
    ensures 100 * Upper(n) <= 77 * n + 50 < 100 * (Upper(n) + 1)
  {
  }

  /** `h->n_buckets - 1`, kh_put's request to clear out deleted buckets. */
  function SameSizeRequest(n: nat): bv32
    requires n <= CEILING
  {
    (n as bv32) - 1
  }

  /** `h->n_buckets + 1`, kh_put's request to expand. */
  function GrowRequest(n: nat): bv32
    requires n <= CEILING
  {
    (n as bv32) + 1
  }

  lemma CapacityOfRequests(n: nat)
    requires n == 0 || (IsPow2(n) && 4 <= n <= CEILING)
    ensures if n == 0 then Capacity(GrowRequest(n)) == 4
            else Capacity(SameSizeRequest(n)) == n && Capacity(GrowRequest(n)) == if n == CEILING then 4 else 2 * n
  {
    hide Capacity, Upper, IsPow2;
    FirstCapacity();
    if n != 0 { CapacityOfNeighbours(n); }
  }

  /** `h->size<<1`, on 32 bits. */
  function Doubled(size: nat): nat {
    2 * size % 0x1_0000_0000
  }

  lemma DoubledMeans(size: nat)
    requires size <= CEILING
    ensures Doubled(size) == if size == CEILING then 0 else 2 * size
  {
  }

  /** Either request of kh_put leaves room for the present entries and one more, and never
      shrinks the table; but at the ceiling the request to grow is refused, and with 2^31
      entries, where the doubled size is 0, the request to stay. */
  lemma RequestsMakeRoom(n: nat, size: nat)
    requires n == 0 || (IsPow2(n) && 4 <= n <= CEILING)
    requires size <= n && (size <= Upper(n) || n == 0 || n == CEILING)
    ensures n > Doubled(size) && size != CEILING ==>
              size < Upper(Capacity(SameSizeRequest(n))) && Capacity(SameSizeRequest(n)) == n
    ensures n > Doubled(size) && size == CEILING ==> size >= Upper(Capacity(SameSizeRequest(n)))
    ensures n <= Doubled(size) && n != CEILING ==>
              size < Upper(Capacity(GrowRequest(n))) && Capacity(GrowRequest(n)) > n
    ensures n <= Doubled(size) && n == CEILING ==> size >= Upper(Capacity(GrowRequest(n)))
  {
    hide Capacity, Upper, IsPow2, Doubled, SameSizeRequest, GrowRequest;
    FirstCapacity();
    DoubledMeans(size);
    CapacityOfRequests(n);
    if n != 0 {
      UpperBounds(n);
    }
  }
}
